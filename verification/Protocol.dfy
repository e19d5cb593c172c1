/**
 What each call of the user service does to the two tables.

 Every call reads at most once outside its transaction (Look) and then makes at
 most one atomic change (Act); the serial effect of a call is Act after Look on
 the same tables, and an interleaved run is a shuffle of the two halves of many
 calls. Environment choices (clock readings, fresh identifiers, which repository
 call fails) are arguments, so that statements about all runs quantify over them.
 */
module Protocol {
  import opened Wrappers
  import opened Entities
  import opened Credentials
  import opened Listing

  /** Lifetimes of the signed token and of its row. The container passes one configured value for both. */
  datatype Config = Config(jwtTtl: int, rowTtl: int)

  /** The successive clock readings of one call. */
  datatype Clock = Clock(entry: Instant, check: Instant, mint: Instant, store: Instant, created: Instant)

  /** The readings come in this order. */
  predicate Ticks(t: Clock) {
    t.entry <= t.check <= t.mint <= t.store <= t.created
  }

  /** Which steps of a call fail; a cancelled context shows up as the failure of the next step. */
  datatype Faults = Faults(
    cancelled: bool, lookup: bool, create: bool, update: bool, revoke: Mishap,
    remove: bool, delete: bool, sign: bool, store: Mishap, commit: bool)

  /** How a nested call fares that checks the context itself: it may find it cancelled, or its statement may fail. */
  datatype Mishap = Fine | Cut | Broken

  const CALM := Faults(false, false, false, false, Fine, false, false, false, Fine, false)

  datatype Env = Env(clock: Clock, jti: Uuid, rowId: Uuid, faults: Faults)

  /** A call that meets no fault, at one instant, with one identifier for all it creates. */
  function At(t: Instant, id: Uuid): Env {
    Env(Clock(t, t, t, t, t), id, id, CALM)
  }

  // Values the request layer lets through, for runs that are given in full.
  const ADDRESS: string := "alice@example.com"
  const OLD_PASSWORD: Password := [97, 98, 99, 100, 101, 102, 103, 104]
  const NEW_PASSWORD: Password := [65, 66, 67, 68, 69, 70, 71, 72]

  datatype Failure =
    | Cancelled
    | Internal
    | CommitFailed
    | InvalidCredentials
    | UserAlreadyExists
    | UserNotFound
    | InvalidUserId
    | InvalidRefreshToken
    | RefreshTokenRevoked
    | RefreshTokenExpired

  datatype Session = Session(id: Uuid, current: bool, createdAt: Instant, expiresAt: Instant)

  datatype Reply =
    | Failed(why: Failure)
    | SignedIn(profile: Profile, issued: TokenPair)
    | Renewed(issued: TokenPair)
    | Done
    | Purged(count: nat)
    | Found(profile: Profile)
    | Listed(sessions: seq<Session>, page: int, limit: int, total: nat)

  datatype Call =
    | Register(email: string, password: Password, name: string, newId: Uuid)
    | Login(email: string, password: Password)
    | Refresh(presented: Presented)
    | ChangePassword(userId: Uuid, current: Password, next: Password)
    | DeleteAccount(userId: Uuid)
    | Revoke(userId: Uuid)
    | Purge
    | GetUser(parsed: Option<Uuid>)
    | ListSessions(userId: Uuid, cookie: Option<Presented>, window: Pagination)

  datatype Account = Account(id: Uuid, row: UserRow)

  /** What the read outside the transaction returned. */
  datatype Seen =
    | NoRead
    | SeenUser(user: Option<Account>)
    | SeenRow(row: Option<TokenRow>)
    | SeenTokens(tokens: map<Digest, TokenRow>)

  datatype Effect = Effect(store: Store, reply: Reply)

  /** The outcome of a transaction body before commit. */
  datatype Body = Abort(why: Failure) | Proceed(store: Store, reply: Reply)

  datatype Issued = NotIssued(why: Failure) | Issued(store: Store, tokens: TokenPair)

  // ----- Repository calls ------------------------------------------------

  predicate Visible(s: Store, id: Uuid) {
    id in s.users && !s.users[id].deleted
  }

  ghost function FindById(s: Store, id: Uuid): Option<Account> {
    if Visible(s, id) then Some(Account(id, s.users[id])) else None
  }

  function Holders(s: Store, email: string): set<Uuid> {
    set id | id in s.users && Visible(s, id) && s.users[id].email == email
  }

  ghost predicate Least(id: Uuid, ids: set<Uuid>) {
    id in ids && forall other :: other in ids ==> id <= other
  }

  lemma {:induction false} LeastExists(ids: set<Uuid>)
    requires ids != {}
    ensures exists id :: Least(id, ids)
  {
    var x :| x in ids;
    if ids == {x} {
      assert Least(x, ids);
    } else {
      LeastExists(ids - {x});
      var y :| Least(y, ids - {x});
      assert forall z :: z in ids ==> z == x || z in ids - {x};
      assert Least(if x < y then x else y, ids);
    }
  }

  /** The first visible row with the address, in primary key order. */
  ghost function FindByEmail(s: Store, email: string): (r: Option<Account>)
    ensures r.Some? ==> Least(r.value.id, Holders(s, email)) && r.value.row == s.users[r.value.id]
    ensures r.None? ==> forall id :: Visible(s, id) ==> s.users[id].email != email
  {
    if Holders(s, email) == {} then
      assert forall id :: Visible(s, id) && s.users[id].email == email ==> id in Holders(s, email);
      None
    else
      LeastExists(Holders(s, email));
      var id :| Least(id, Holders(s, email));
      Some(Account(id, s.users[id]))
  }

  ghost function FindByTokenHash(s: Store, d: Digest): Option<TokenRow> {
    if d in s.tokens then Some(s.tokens[d]) else None
  }

  /** Inserting a user fails on the primary key and on the email index, which also covers deleted rows. */
  predicate UserKeysFree(s: Store, id: Uuid, email: string) {
    id !in s.users && forall other | other in s.users :: s.users[other].email != email
  }

  predicate TokenKeysFree(s: Store, id: Uuid, d: Digest) {
    d !in s.tokens && forall other | other in s.tokens :: s.tokens[other].id != id
  }

  /** The constraints of the token table: rows sit under their digest, and primary keys are unique. */
  ghost predicate WellKeyed(s: Store) {
    && (forall d :: d in s.tokens ==> s.tokens[d].digest == d)
    && (forall d, d' :: d in s.tokens && d' in s.tokens && s.tokens[d].id == s.tokens[d'].id ==> d == d')
  }

  /** Whether the unique index lets a patch write its address. */
  predicate PatchFits(s: Store, id: Uuid, patch: UserPatch) {
    patch.email == "" || forall other | other in s.users && other != id :: s.users[other].email != patch.email
  }

  /** An update writes the non-zero fields of the patch. */
  function Patched(row: UserRow, patch: UserPatch): UserRow {
    row.(email := if patch.email != "" then patch.email else row.email,
         password := if patch.password.Some? then patch.password.value else row.password,
         name := if patch.name != "" then patch.name else row.name)
  }

  /** Updates and deletes of users skip soft-deleted rows; an update the index refuses writes nothing. */
  function UpdateUser(s: Store, id: Uuid, patch: UserPatch): Store {
    if Visible(s, id) && PatchFits(s, id, patch) then s.(users := s.users[id := Patched(s.users[id], patch)]) else s
  }

  function SoftDelete(s: Store, id: Uuid): Store {
    if Visible(s, id) then s.(users := s.users[id := s.users[id].(deleted := true)]) else s
  }

  function DeleteByUserId(s: Store, userId: Uuid): Store {
    s.(tokens := map d | d in s.tokens && s.tokens[d].userId != userId :: s.tokens[d])
  }

  function DeleteByTokenHash(s: Store, d: Digest): Store {
    s.(tokens := s.tokens - {d})
  }

  function ExpiredAt(s: Store, before: Instant): set<Digest> {
    set d | d in s.tokens && s.tokens[d].expiresAt < before
  }

  function DeleteExpired(s: Store, before: Instant): Store {
    s.(tokens := s.tokens - ExpiredAt(s, before))
  }

  // ----- Service calls ---------------------------------------------------

  function MintedToken(cfg: Config, userId: Uuid, e: Env): RefreshToken {
    GenerateRefreshToken(userId, e.jti, e.clock.mint, cfg.jwtTtl)
  }

  function MintedRow(cfg: Config, userId: Uuid, e: Env): TokenRow {
    TokenRow(e.rowId, userId, Hash(MintedToken(cfg, userId, e)), e.clock.store + cfg.rowTtl, e.clock.created)
  }

  /** A nested call passes the bare context error through and hides any other. */
  function FailureOf(m: Mishap): Failure {
    if m.Cut? then Cancelled else Internal
  }

  /** Mints a pair and stores the digest of its refresh token. */
  function IssueTokens(cfg: Config, s: Store, who: Profile, e: Env): Issued {
    var row := MintedRow(cfg, who.id, e);
    if e.faults.sign then NotIssued(Internal)
    else if !e.faults.store.Fine? then NotIssued(FailureOf(e.faults.store))
    else if !TokenKeysFree(s, row.id, row.digest) then NotIssued(Internal)
    else
      Issued(s.(tokens := s.tokens[row.digest := row]),
             TokenPair(AccessToken(who.id, who.email, who.name), MintedToken(cfg, who.id, e)))
  }

  /** A transaction keeps its body's tables only when the body and the commit succeed. */
  function Transact(before: Store, body: Body, e: Env): Effect {
    match body
    case Abort(why) => Effect(before, Failed(why))
    case Proceed(after, reply) => if e.faults.commit then Effect(before, Failed(CommitFailed)) else Effect(after, reply)
  }

  function ProfileOf(a: Account): Profile {
    Profile(a.id, a.row.email, a.row.name)
  }

  function ActRegister(cfg: Config, s: Store, c: Call, e: Env, seen: Seen): Effect
    requires c.Register?
  {
    if e.faults.cancelled then Effect(s, Failed(Cancelled))
    else if e.faults.lookup then Effect(s, Failed(Internal))
    else if seen.SeenUser? && seen.user.Some? then Effect(s, Failed(UserAlreadyExists))
    else match HashPassword(c.password)
      case None => Effect(s, Failed(Internal))
      case Some(hash) =>
        var who := Profile(c.newId, c.email, c.name);
        Transact(s,
                 if e.faults.create then Abort(Internal)
                 else if !UserKeysFree(s, c.newId, c.email) then Abort(UserAlreadyExists)
                 else match IssueTokens(cfg, s.(users := s.users[c.newId := UserRow(c.email, hash, c.name, false)]),
                                        who, e)
                   case NotIssued(why) => Abort(why)
                   case Issued(after, tokens) => Proceed(after, SignedIn(who, tokens)), e)
  }

  function ActLogin(cfg: Config, s: Store, c: Call, e: Env, seen: Seen): Effect
    requires c.Login?
  {
    if e.faults.cancelled then Effect(s, Failed(Cancelled))
    else if e.faults.lookup then Effect(s, Failed(Internal))
    else if !seen.SeenUser? || seen.user.None? || !Matches(seen.user.value.row.password, c.password) then
      Effect(s, Failed(InvalidCredentials))
    else match IssueTokens(cfg, s, ProfileOf(seen.user.value), e)
      case NotIssued(why) => Effect(s, Failed(why))
      case Issued(after, tokens) => Effect(after, SignedIn(ProfileOf(seen.user.value), tokens))
  }

  function ActRefresh(cfg: Config, s: Store, c: Call, e: Env, seen: Seen): Effect
    requires c.Refresh?
  {
    if e.faults.cancelled then Effect(s, Failed(Cancelled))
    else match ValidateRefreshToken(c.presented, e.clock.entry)
      case None => Effect(s, Failed(InvalidRefreshToken))
      case Some(token) =>
        if e.faults.lookup then Effect(s, Failed(Internal))
        else if !seen.SeenRow? || seen.row.None? then
          Effect(if e.faults.revoke.Fine? then DeleteByUserId(s, token.userId) else s, Failed(RefreshTokenRevoked))
        else if seen.row.value.expiresAt < e.clock.check then
          Effect(if e.faults.remove then s else DeleteByTokenHash(s, Hash(token)), Failed(RefreshTokenExpired))
        else
          Transact(s,
                   if e.faults.remove then Abort(Internal)
                   else match IssueTokens(cfg, DeleteByTokenHash(s, Hash(token)), Profile(token.userId, "", ""), e)
                     case NotIssued(why) => Abort(why)
                     case Issued(after, tokens) => Proceed(after, Renewed(tokens)), e)
  }

  function ActChangePassword(cfg: Config, s: Store, c: Call, e: Env, seen: Seen): Effect
    requires c.ChangePassword?
  {
    if e.faults.cancelled then Effect(s, Failed(Cancelled))
    else if e.faults.lookup then Effect(s, Failed(Internal))
    else if !seen.SeenUser? || seen.user.None? || !Matches(seen.user.value.row.password, c.current) then
      Effect(s, Failed(InvalidCredentials))
    else match HashPassword(c.next)
      case None => Effect(s, Failed(Internal))
      case Some(hash) =>
        Transact(s,
                 if e.faults.update then Abort(Internal)
                 else if !e.faults.revoke.Fine? then Abort(FailureOf(e.faults.revoke))
                 else
                   var updated := UpdateUser(s, c.userId, UserPatch("", Some(hash), ""));
                   match IssueTokens(cfg, DeleteByUserId(updated, c.userId), ProfileOf(seen.user.value), e)
                   case NotIssued(why) => Abort(why)
                   case Issued(after, tokens) => Proceed(after, Renewed(tokens)), e)
  }

  function ActDeleteAccount(s: Store, c: Call, e: Env, seen: Seen): Effect
    requires c.DeleteAccount?
  {
    if e.faults.cancelled then Effect(s, Failed(Cancelled))
    else if e.faults.lookup then Effect(s, Failed(Internal))
    else if !seen.SeenUser? || seen.user.None? then Effect(s, Failed(UserNotFound))
    else
      Transact(s,
               if !e.faults.revoke.Fine? then Abort(FailureOf(e.faults.revoke))
               else if e.faults.delete then Abort(Internal)
               else Proceed(SoftDelete(DeleteByUserId(s, c.userId), c.userId), Done), e)
  }

  function ActRevoke(s: Store, c: Call, e: Env): Effect
    requires c.Revoke?
  {
    if e.faults.cancelled then Effect(s, Failed(Cancelled))
    else if !e.faults.revoke.Fine? then Effect(s, Failed(FailureOf(e.faults.revoke)))
    else Effect(DeleteByUserId(s, c.userId), Done)
  }

  function ActPurge(s: Store, e: Env): Effect {
    if e.faults.cancelled then Effect(s, Failed(Cancelled))
    else if e.faults.remove then Effect(s, Failed(Internal))
    else Effect(DeleteExpired(s, e.clock.entry), Purged(|ExpiredAt(s, e.clock.entry)|))
  }

  function ActGetUser(s: Store, c: Call, e: Env, seen: Seen): Effect
    requires c.GetUser?
  {
    if e.faults.cancelled then Effect(s, Failed(Cancelled))
    else if c.parsed.None? then Effect(s, Failed(InvalidUserId))
    else if e.faults.lookup then Effect(s, Failed(Internal))
    else if !seen.SeenUser? || seen.user.None? then Effect(s, Failed(UserNotFound))
    else Effect(s, Found(ProfileOf(seen.user.value)))
  }

  /** The digest the caller's own session is recognised by; text that is not a signed token matches no row. */
  function CurrentHash(cookie: Option<Presented>): Option<Digest> {
    if cookie.Some? && cookie.value.Signed? then Some(Hash(cookie.value.token)) else None
  }

  function SessionOf(row: TokenRow, current: Option<Digest>): Session {
    Session(row.id, current == Some(row.digest), row.createdAt, row.expiresAt)
  }

  function SessionsOf(rows: seq<TokenRow>, current: Option<Digest>): seq<Session> {
    seq(|rows|, i requires 0 <= i < |rows| => SessionOf(rows[i], current))
  }

  /** The total is counted on the table of the read, the page taken from the table of now. */
  ghost function ActListSessions(s: Store, c: Call, e: Env, seen: Seen): Effect
    requires c.ListSessions?
  {
    if e.faults.cancelled then Effect(s, Failed(Cancelled))
    else if e.faults.lookup then Effect(s, Failed(Internal))
    else
      var window := Normalized(c.window);
      var rows := ListActive(s.tokens, c.userId, e.clock.entry, window.limit, Offset(window));
      Effect(s, Listed(SessionsOf(rows, CurrentHash(c.cookie)), window.page, window.limit,
                       if seen.SeenTokens? then |ActiveRows(seen.tokens, c.userId, e.clock.entry)| else 0))
  }

  // ----- The two halves of a call ----------------------------------------

  ghost function Look(s: Store, c: Call): Seen {
    match c
    case Register(email, _, _, _) => SeenUser(FindByEmail(s, email))
    case Login(email, _) => SeenUser(FindByEmail(s, email))
    case Refresh(presented) => if presented.Signed? then SeenRow(FindByTokenHash(s, Hash(presented.token))) else NoRead
    case ChangePassword(userId, _, _) => SeenUser(FindById(s, userId))
    case DeleteAccount(userId) => SeenUser(FindById(s, userId))
    case GetUser(parsed) => if parsed.Some? then SeenUser(FindById(s, parsed.value)) else NoRead
    case Revoke(_) => NoRead
    case Purge => NoRead
    case ListSessions(_, _, _) => SeenTokens(s.tokens)
  }

  ghost function Act(cfg: Config, s: Store, c: Call, e: Env, seen: Seen): Effect {
    match c
    case Register(_, _, _, _) => ActRegister(cfg, s, c, e, seen)
    case Login(_, _) => ActLogin(cfg, s, c, e, seen)
    case Refresh(_) => ActRefresh(cfg, s, c, e, seen)
    case ChangePassword(_, _, _) => ActChangePassword(cfg, s, c, e, seen)
    case DeleteAccount(_) => ActDeleteAccount(s, c, e, seen)
    case Revoke(_) => ActRevoke(s, c, e)
    case Purge => ActPurge(s, e)
    case GetUser(_) => ActGetUser(s, c, e, seen)
    case ListSessions(_, _, _) => ActListSessions(s, c, e, seen)
  }

  /** A call that nothing interrupts. */
  ghost function Serve(cfg: Config, s: Store, c: Call, e: Env): Effect {
    Act(cfg, s, c, e, Look(s, c))
  }
}
