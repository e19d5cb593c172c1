/**
 The user service itself, statement by statement, against the protocol.

 Every method changes the database in place and leaves exactly the tables and
 the reply that Protocol.Serve prescribes for the call on the tables it found.
 */
module Service {
  import opened Wrappers
  import opened Entities
  import opened Credentials
  import opened Listing
  import opened Repository
  import opened Protocol

  class UserService {
    const db: Database
    const cfg: Config

    constructor (db: Database, cfg: Config)
      ensures this.db == db && this.cfg == cfg
    {
      this.db, this.cfg := db, cfg;
    }

    /** Writes only the digest of the token. */
    method StoreRefreshToken(userId: Uuid, token: RefreshToken, expiresAt: Instant, e: Env)
      returns (failure: Option<Failure>)
      requires db.Valid()
      modifies db
      ensures db.Valid() && db.users == old(db.users)
      ensures failure == Some(Cancelled) <==> e.faults.store.Cut?
      ensures failure == None <==> e.faults.store.Fine? && TokenKeysFree(old(db.View()), e.rowId, Hash(token))
      ensures failure.None? || failure == Some(Cancelled) || failure == Some(Internal)
      ensures db.tokens == if failure.Some? then old(db.tokens)
                           else
                             var row := TokenRow(e.rowId, userId, Hash(token), expiresAt, e.clock.created);
                             old(db.tokens)[Hash(token) := row]
    {
      if e.faults.store.Cut? { return Some(Cancelled); }
      if e.faults.store.Broken? { return Some(Internal); }
      var created := db.CreateToken(TokenRow(e.rowId, userId, Hash(token), expiresAt, e.clock.created));
      failure := if created then None else Some(Internal);
    }

    method IssueTokens(who: Profile, e: Env) returns (pair: Option<TokenPair>, why: Failure)
      requires db.Valid()
      modifies db
      ensures db.Valid()
      ensures match Protocol.IssueTokens(cfg, old(db.View()), who, e)
              case NotIssued(failure) => pair.None? && why == failure && db.View() == old(db.View())
              case Issued(after, tokens) => pair == Some(tokens) && db.View() == after
    {
      if e.faults.sign {
        return None, Internal;
      }
      var access := AccessToken(who.id, who.email, who.name);
      var refresh := GenerateRefreshToken(who.id, e.jti, e.clock.mint, cfg.jwtTtl);
      var expiresAt := e.clock.store + cfg.rowTtl;
      var failure := StoreRefreshToken(who.id, refresh, expiresAt, e);
      if failure.Some? {
        return None, failure.value;
      }
      pair, why := Some(TokenPair(access, refresh)), Internal;
    }

    method RevokeRefreshTokens(userId: Uuid, e: Env) returns (reply: Reply)
      requires db.Valid()
      modifies db
      ensures db.Valid()
      ensures Effect(db.View(), reply) == Serve(cfg, old(db.View()), Revoke(userId), e)
    {
      if e.faults.cancelled { return Failed(Cancelled); }
      if e.faults.revoke.Cut? { return Failed(Cancelled); }
      if e.faults.revoke.Broken? { return Failed(Internal); }
      db.DeleteByUserId(userId);
      reply := Done;
    }

    method PurgeExpiredRefreshTokens(e: Env) returns (reply: Reply)
      requires db.Valid()
      modifies db
      ensures db.Valid()
      ensures Effect(db.View(), reply) == Serve(cfg, old(db.View()), Purge, e)
    {
      if e.faults.cancelled { return Failed(Cancelled); }
      if e.faults.remove { return Failed(Internal); }
      var removed := db.DeleteExpired(e.clock.entry);
      reply := Purged(removed);
    }

    /** The body of Register's transaction. */
    method CreateAndIssue(who: Profile, row: UserRow, e: Env) returns (reply: Reply)
      requires db.Valid()
      modifies db
      ensures db.Valid()
      ensures var s := old(db.View());
              if e.faults.create then reply == Failed(Internal)
              else if !UserKeysFree(s, who.id, row.email) then reply == Failed(UserAlreadyExists)
              else match Protocol.IssueTokens(cfg, s.(users := s.users[who.id := row]), who, e)
                case NotIssued(why) => reply == Failed(why)
                case Issued(after, tokens) => reply == SignedIn(who, tokens) && db.View() == after
    {
      if e.faults.create { return Failed(Internal); }
      var created := db.CreateUser(who.id, row);
      if !created { return Failed(UserAlreadyExists); }
      var issued, why := IssueTokens(who, e);
      reply := if issued.Some? then SignedIn(who, issued.value) else Failed(why);
    }

    /** Commits when the body succeeded and the commit goes through, otherwise rolls back. */
    method Finish(before: Store, body: Reply, e: Env) returns (reply: Reply)
      requires db.Valid() && WellKeyed(before)
      modifies db
      ensures db.Valid()
      ensures Effect(db.View(), reply)
              == Transact(before, if body.Failed? then Abort(body.why) else Proceed(old(db.View()), body), e)
    {
      db.EndTransaction(before, !body.Failed? && !e.faults.commit);
      reply := if body.Failed? then body else if e.faults.commit then Failed(CommitFailed) else body;
    }

    method Register(email: string, password: Password, name: string, newId: Uuid, e: Env) returns (reply: Reply)
      requires db.Valid()
      modifies db
      ensures db.Valid()
      ensures Effect(db.View(), reply) == Serve(cfg, old(db.View()), Call.Register(email, password, name, newId), e)
    {
      if e.faults.cancelled { return Failed(Cancelled); }
      var existing := db.FindByEmail(email);
      if e.faults.lookup { return Failed(Internal); }
      if existing.Some? { return Failed(UserAlreadyExists); }
      var hashed := HashPassword(password);
      if hashed.None? { return Failed(Internal); }

      var who := Profile(newId, email, name);
      var before := Store(db.users, db.tokens);
      reply := CreateAndIssue(who, UserRow(email, hashed.value, name, false), e);
      reply := Finish(before, reply, e);
    }

    method Login(email: string, password: Password, e: Env) returns (reply: Reply)
      requires db.Valid()
      modifies db
      ensures db.Valid()
      ensures Effect(db.View(), reply) == Serve(cfg, old(db.View()), Call.Login(email, password), e)
    {
      if e.faults.cancelled { return Failed(Cancelled); }
      var user := db.FindByEmail(email);
      if e.faults.lookup { return Failed(Internal); }
      if user.None? { return Failed(InvalidCredentials); }
      if !Matches(user.value.row.password, password) { return Failed(InvalidCredentials); }
      var who := Profile(user.value.id, user.value.row.email, user.value.row.name);
      var issued, why := IssueTokens(who, e);
      reply := if issued.Some? then SignedIn(who, issued.value) else Failed(why);
    }

    /** Ends every session of the user; the token is refused whether or not that succeeds. */
    method HandleReuse(userId: Uuid, e: Env) returns (reply: Reply)
      requires db.Valid()
      modifies db
      ensures db.Valid() && reply == Failed(RefreshTokenRevoked)
      ensures db.View()
              == if !e.faults.cancelled && e.faults.revoke.Fine? then DeleteByUserId(old(db.View()), userId)
                 else old(db.View())
    {
      var _ := RevokeRefreshTokens(userId, e);
      reply := Failed(RefreshTokenRevoked);
    }

    /** The body of Refresh's transaction. */
    method Rotate(token: RefreshToken, e: Env) returns (reply: Reply)
      requires db.Valid()
      modifies db
      ensures db.Valid()
      ensures if e.faults.remove then reply == Failed(Internal)
              else match Protocol.IssueTokens(cfg, DeleteByTokenHash(old(db.View()), Hash(token)),
                                              Profile(token.userId, "", ""), e)
                case NotIssued(why) => reply == Failed(why)
                case Issued(after, tokens) => reply == Renewed(tokens) && db.View() == after
    {
      if e.faults.remove { return Failed(Internal); }
      db.DeleteByTokenHash(Hash(token));
      var issued, why := IssueTokens(Profile(token.userId, "", ""), e);
      reply := if issued.Some? then Renewed(issued.value) else Failed(why);
    }

    method Refresh(presented: Presented, e: Env) returns (reply: Reply)
      requires db.Valid()
      modifies db
      ensures db.Valid()
      ensures Effect(db.View(), reply) == Serve(cfg, old(db.View()), Call.Refresh(presented), e)
    {
      if e.faults.cancelled { return Failed(Cancelled); }
      var claims := ValidateRefreshToken(presented, e.clock.entry);
      if claims.None? { return Failed(InvalidRefreshToken); }
      var token := claims.value;
      var stored := db.FindByTokenHash(Hash(token));
      if e.faults.lookup { return Failed(Internal); }
      if stored.None? {
        reply := HandleReuse(token.userId, e);
        return;
      }
      if stored.value.expiresAt < e.clock.check {
        if !e.faults.remove { db.DeleteByTokenHash(Hash(token)); }
        return Failed(RefreshTokenExpired);
      }
      var before := Store(db.users, db.tokens);
      reply := Rotate(token, e);
      reply := Finish(before, reply, e);
    }

    /** The body of ChangePassword's transaction. */
    method ReplaceAndReissue(user: Account, hash: PasswordHash, e: Env) returns (reply: Reply)
      requires db.Valid() && !e.faults.cancelled
      modifies db
      ensures db.Valid()
      ensures if e.faults.update then reply == Failed(Internal)
              else if !e.faults.revoke.Fine? then reply == Failed(FailureOf(e.faults.revoke))
              else
                var updated := UpdateUser(old(db.View()), user.id, UserPatch("", Some(hash), ""));
                match Protocol.IssueTokens(cfg, DeleteByUserId(updated, user.id), ProfileOf(user), e)
                case NotIssued(why) => reply == Failed(why)
                case Issued(after, tokens) => reply == Renewed(tokens) && db.View() == after
    {
      var updated := db.UpdateUser(user.id, UserPatch("", Some(hash), ""));
      if e.faults.update || !updated { return Failed(Internal); }
      var revoked := RevokeRefreshTokens(user.id, e);
      if revoked.Failed? { return revoked; }
      var issued, why := IssueTokens(Profile(user.id, user.row.email, user.row.name), e);
      reply := if issued.Some? then Renewed(issued.value) else Failed(why);
    }

    method ChangePassword(userId: Uuid, current: Password, next: Password, e: Env) returns (reply: Reply)
      requires db.Valid()
      modifies db
      ensures db.Valid()
      ensures Effect(db.View(), reply) == Serve(cfg, old(db.View()), Call.ChangePassword(userId, current, next), e)
    {
      if e.faults.cancelled { return Failed(Cancelled); }
      var user := db.FindById(userId);
      if e.faults.lookup { return Failed(Internal); }
      if user.None? { return Failed(InvalidCredentials); }
      if !Matches(user.value.row.password, current) { return Failed(InvalidCredentials); }
      var hashed := HashPassword(next);
      if hashed.None? { return Failed(Internal); }
      var before := Store(db.users, db.tokens);
      reply := ReplaceAndReissue(user.value, hashed.value, e);
      reply := Finish(before, reply, e);
    }

    method DeleteAccount(userId: Uuid, e: Env) returns (reply: Reply)
      requires db.Valid()
      modifies db
      ensures db.Valid()
      ensures Effect(db.View(), reply) == Serve(cfg, old(db.View()), Call.DeleteAccount(userId), e)
    {
      if e.faults.cancelled { return Failed(Cancelled); }
      var user := db.FindById(userId);
      if e.faults.lookup { return Failed(Internal); }
      if user.None? { return Failed(UserNotFound); }
      var before := Store(db.users, db.tokens);
      reply := RevokeRefreshTokens(userId, e);
      if !reply.Failed? {
        if e.faults.delete {
          reply := Failed(Internal);
        } else {
          db.DeleteUser(userId);
        }
      }
      reply := Finish(before, reply, e);
    }

    method GetUser(parsed: Option<Uuid>, e: Env) returns (reply: Reply)
      ensures Effect(db.View(), reply) == Serve(cfg, db.View(), Call.GetUser(parsed), e)
    {
      if e.faults.cancelled { return Failed(Cancelled); }
      if parsed.None? { return Failed(InvalidUserId); }
      var user := db.FindById(parsed.value);
      if e.faults.lookup { return Failed(Internal); }
      reply := if user.None? then Failed(UserNotFound)
               else Found(Profile(user.value.id, user.value.row.email, user.value.row.name));
    }

    /** The second read and the reply, on a table that may no longer be the one the total was counted on. */
    method FinishListing(userId: Uuid, cookie: Option<Presented>, window: Pagination, total: nat, e: Env,
                         ghost seen: Seen)
      returns (reply: Reply)
      requires db.Valid() && !e.faults.cancelled && !e.faults.lookup
      requires seen.SeenTokens? && total == |ActiveRows(seen.tokens, userId, e.clock.entry)|
      ensures Effect(db.View(), reply) == Act(cfg, db.View(), Call.ListSessions(userId, cookie, window), e, seen)
    {
      var page := Normalized(window);
      var rows := db.ListActive(userId, e.clock.entry, page.limit, Offset(page));
      var current := CurrentHash(cookie);
      var sessions := [];
      for i := 0 to |rows|
        invariant sessions == SessionsOf(rows[..i], current)
      {
        var row := rows[i];
        sessions := sessions + [Session(row.id, current == Some(row.digest), row.createdAt, row.expiresAt)];
      }
      assert rows[..|rows|] == rows;
      reply := Listed(sessions, page.page, page.limit, total);
    }

    method ListSessions(userId: Uuid, cookie: Option<Presented>, window: Pagination, e: Env) returns (reply: Reply)
      requires db.Valid()
      ensures Effect(db.View(), reply) == Serve(cfg, db.View(), Call.ListSessions(userId, cookie, window), e)
    {
      if e.faults.cancelled { return Failed(Cancelled); }
      if e.faults.lookup { return Failed(Internal); }
      var total := db.CountActive(userId, e.clock.entry);
      reply := FinishListing(userId, cookie, window, total, e, SeenTokens(db.tokens));
    }
  }
}
