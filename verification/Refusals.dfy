/**
 Why each call fails, and what exactly a successful one writes: every reply and
 every written field, in terms of the columns of the tables, the arguments of the
 call and the steps that fail.
 */
module Refusals {
  import opened Wrappers
  import opened Entities
  import opened Credentials
  import opened Listing
  import opened Protocol
  import opened Frames
  import opened Runs
  import opened Decisions

  // ----- What is in the tables --------------------------------------------

  /** Some row that is not deleted holds the address. */
  ghost predicate Registered(s: Store, email: string) {
    exists u :: u in s.users && !s.users[u].deleted && s.users[u].email == email
  }

  /** The row of the account is not deleted and holds a hash the password has. */
  ghost predicate Knows(s: Store, u: Uuid, password: Password) {
    u in s.users && !s.users[u].deleted && s.users[u].password.key == Stream(password)
  }

  /** Some row that is not deleted holds the address and a hash the password has. */
  ghost predicate Authentic(s: Store, email: string, password: Password) {
    exists u :: u in s.users && s.users[u].email == email && Knows(s, u, password)
  }

  // ----- Issuing -----------------------------------------------------------

  /** Only a fault or a clash with a stored digest or key keeps tokens from being issued. */
  lemma IssueDecides(cfg: Config, s: Store, who: Profile, e: Env)
    ensures var expiry := e.clock.mint + cfg.jwtTtl;
            var token := RefreshToken(who.id, e.jti, expiry - expiry % 1_000_000_000, 0);
            var clash := Digest(token) in s.tokens || exists d :: d in s.tokens && s.tokens[d].id == e.rowId;
            var row := TokenRow(e.rowId, who.id, Digest(token), e.clock.store + cfg.rowTtl, e.clock.created);
            IssueTokens(cfg, s, who, e)
            == if e.faults.sign then NotIssued(Internal)
               else if e.faults.store == Cut then NotIssued(Cancelled)
               else if e.faults.store == Broken || clash then NotIssued(Internal)
               else Issued(Store(s.users, s.tokens[Digest(token) := row]),
                           TokenPair(AccessToken(who.id, who.email, who.name), token))
  {
    var row := MintedRow(cfg, who.id, e);
    if !TokenKeysFree(s, row.id, row.digest) && row.digest !in s.tokens {
      var d :| d in s.tokens && s.tokens[d].id == row.id;
    }
  }

  /** What a call that hands out a pair writes and returns, column by column. */
  lemma IssuedExactly(cfg: Config, w: World, st: Step)
    requires Inv(w) && Enabled(w, st) && Issues(ReplyOf(cfg, w, st))
    ensures var pair, t, tokens := ReplyOf(cfg, w, st).issued, st.env.clock, Next(cfg, w, st).store.tokens;
            var u, d := pair.refresh.userId, Digest(pair.refresh);
            var expiry := t.mint + cfg.jwtTtl;
            && pair.refresh == RefreshToken(u, st.env.jti, expiry - expiry % 1_000_000_000, 0)
            && d !in w.store.tokens && d in tokens
            && tokens[d] == TokenRow(st.env.rowId, u, d, t.store + cfg.rowTtl, t.created)
  {
    ActFrame(cfg, w.store, st.call, st.env, Look(w.store, st.call));
    RowFact(w, Hash(ReplyOf(cfg, w, st).issued.refresh));
  }

  // ----- Register ----------------------------------------------------------

  lemma LookedUp(s: Store, email: string)
    ensures FindByEmail(s, email).Some? <==> Registered(s, email)
  {
    var found := FindByEmail(s, email);
    if found.Some? {
      assert found.value.id in Holders(s, email);
    }
    assert forall u :: u in s.users && !s.users[u].deleted ==> Visible(s, u);
  }

  /** An address any account holds, deleted or not, is a conflict; nothing else is. */
  lemma RegisterReplies(cfg: Config, w: World, st: Step)
    requires Inv(w) && Enabled(w, st) && st.call.Register?
    ensures var c, f, s, reply := st.call, st.env.faults, w.store, ReplyOf(cfg, w, st);
            var known := Registered(s, c.email);
            var fits := |c.password| <= 72;
            var taken := c.newId in s.users || exists u :: u in s.users && s.users[u].email == c.email;
            var begun := !f.cancelled && !f.lookup && !known && fits;
            && (reply == Failed(UserAlreadyExists)
                <==> (!f.cancelled && !f.lookup && known) || (begun && !f.create && taken))
            && (reply == Failed(Cancelled)
                <==> f.cancelled || (begun && !f.create && !taken && !f.sign && f.store == Cut))
            && (reply == Failed(CommitFailed) <==>
                  begun && !f.create && !taken && !f.sign && f.store == Fine && f.commit)
            && (reply == Failed(Internal) <==>
                  || (!f.cancelled && f.lookup) || (!f.cancelled && !known && !f.lookup && !fits)
                  || (begun && (f.create || (!taken && (f.sign || f.store == Broken)))))
            && (reply.Failed? || (reply.SignedIn? && reply.profile == Profile(c.newId, c.email, c.name)))
  {
    var s, c, e := w.store, st.call, st.env;
    assert Served(cfg, w, st) == ActRegister(cfg, s, c, e, Look(s, c));
    LookedUp(s, c.email);
    FreshRowFits(cfg, w, st, c.newId, s);
  }

  // ----- Login -------------------------------------------------------------

  lemma LookedUpAuthentic(s: Store, email: string, password: Password)
    requires UniqueEmails(s)
    ensures Authentic(s, email, password)
            <==> FindByEmail(s, email).Some? && Matches(FindByEmail(s, email).value.row.password, password)
  {
    var found := FindByEmail(s, email);
    if found.Some? {
      assert found.value.id in Holders(s, email);
    }
    if u :| u in s.users && s.users[u].email == email && Knows(s, u, password) {
      FoundByEmail(s, u);
    }
  }

  /** A missing account, a deleted one and a wrong password are one failure, and not that of a fault. */
  lemma LoginReplies(cfg: Config, w: World, st: Step)
    requires Inv(w) && Enabled(w, st) && st.call.Login?
    ensures var c, f, reply := st.call, st.env.faults, ReplyOf(cfg, w, st);
            var authentic := Authentic(w.store, c.email, c.password);
            && (reply == Failed(InvalidCredentials) <==> !f.cancelled && !f.lookup && !authentic)
            && (reply == Failed(Cancelled) <==> f.cancelled || (!f.lookup && authentic && !f.sign && f.store == Cut))
            && (reply == Failed(Internal) <==>
                  !f.cancelled && (f.lookup || (authentic && (f.sign || f.store == Broken))))
            && (reply.SignedIn? <==> !f.cancelled && !f.lookup && authentic && !f.sign && f.store == Fine)
            && (reply.Failed? || reply.SignedIn?)
  {
    var s, c, e := w.store, st.call, st.env;
    assert Served(cfg, w, st) == ActLogin(cfg, s, c, e, Look(s, c));
    LookedUpAuthentic(s, c.email, c.password);
    if FindByEmail(s, c.email).Some? {
      FreshRowFits(cfg, w, st, FindByEmail(s, c.email).value.id, s);
    }
  }

  /** So two logins that fail without faults get the same answer, whatever they asked, on whatever tables. */
  lemma FailedLoginsLookAlike(cfg: Config, w: World, st: Step, w': World, st': Step)
    requires Inv(w) && Enabled(w, st) && st.call.Login? && st.env.faults == CALM && ReplyOf(cfg, w, st).Failed?
    requires Inv(w') && Enabled(w', st') && st'.call.Login? && st'.env.faults == CALM && ReplyOf(cfg, w', st').Failed?
    ensures ReplyOf(cfg, w, st) == ReplyOf(cfg, w', st') == Failed(InvalidCredentials)
  {
    LoginReplies(cfg, w, st);
    LoginReplies(cfg, w', st');
  }

  // ----- Refresh -----------------------------------------------------------

  /** Each failure of a refresh has its own cause. */
  lemma RefreshReplies(cfg: Config, w: World, st: Step)
    requires Inv(w) && Enabled(w, st) && st.call.Refresh?
    ensures var p, f, t := st.call.presented, st.env.faults, st.env.clock;
            var reply, tokens := ReplyOf(cfg, w, st), w.store.tokens;
            var valid := !f.cancelled && p.Signed? && t.entry < p.token.exp;
            var stored := valid && !f.lookup && Digest(p.token) in tokens;
            var live := stored && t.check <= tokens[Digest(p.token)].expiresAt;
            && (reply == Failed(InvalidRefreshToken) <==> !f.cancelled && (p.Garbage? || p.token.exp <= t.entry))
            && (reply == Failed(RefreshTokenRevoked) <==> valid && !f.lookup && Digest(p.token) !in tokens)
            && (reply == Failed(RefreshTokenExpired) <==> stored && tokens[Digest(p.token)].expiresAt < t.check)
            && (reply == Failed(Cancelled) <==> f.cancelled || (live && !f.remove && !f.sign && f.store == Cut))
            && (reply == Failed(CommitFailed) <==> live && !f.remove && !f.sign && f.store == Fine && f.commit)
            && (reply == Failed(Internal) <==>
                  (valid && f.lookup) || (live && (f.remove || f.sign || f.store == Broken)))
            && (reply.Failed? || reply.Renewed?)
  {
    var s, c, e := w.store, st.call, st.env;
    assert Served(cfg, w, st) == ActRefresh(cfg, s, c, e, Look(s, c));
    if c.presented.Signed? {
      FreshRowFits(cfg, w, st, c.presented.token.userId, DeleteByTokenHash(s, Hash(c.presented.token)));
    }
  }

  /** A rotation replaces one row by one row and leaves the accounts alone. */
  lemma RotationEffect(cfg: Config, w: World, st: Step)
    requires Inv(w) && Enabled(w, st) && st.call.Refresh? && ReplyOf(cfg, w, st).Renewed?
    ensures var s, s' := w.store, Next(cfg, w, st).store;
            var old', new' := st.call.presented, ReplyOf(cfg, w, st).issued.refresh;
            && s'.users == s.users && old'.Signed? && new'.userId == old'.token.userId
            && (forall d :: d in s'.tokens <==> d == Digest(new') || (d in s.tokens && d != Digest(old'.token)))
            && (forall d :: d in s.tokens && d in s'.tokens ==> s'.tokens[d] == s.tokens[d])
  {
    var s, c, e := w.store, st.call, st.env;
    assert Served(cfg, w, st) == ActRefresh(cfg, s, c, e, Look(s, c));
    RowFact(w, Hash(ReplyOf(cfg, w, st).issued.refresh));
  }

  // ----- Password change, deletion, logout, sweep, profile, listing ---------

  /** A missing account and a wrong current password are one failure. */
  lemma ChangePasswordReplies(cfg: Config, w: World, st: Step)
    requires Inv(w) && Enabled(w, st) && st.call.ChangePassword?
    ensures var c, f, reply := st.call, st.env.faults, ReplyOf(cfg, w, st);
            var known := !f.cancelled && !f.lookup && Knows(w.store, c.userId, c.current);
            var begun := known && |c.next| <= 72;
            var revoked := begun && !f.update && f.revoke == Fine;
            && (reply == Failed(InvalidCredentials) <==> !f.cancelled && !f.lookup && !known)
            && (reply == Failed(Cancelled) <==>
                  || f.cancelled || (begun && !f.update && f.revoke == Cut) || (revoked && !f.sign && f.store == Cut))
            && (reply == Failed(CommitFailed) <==> revoked && !f.sign && f.store == Fine && f.commit)
            && (reply == Failed(Internal) <==>
                  || (!f.cancelled && f.lookup) || (known && |c.next| > 72)
                  || (begun && (f.update || f.revoke == Broken))
                  || (revoked && (f.sign || f.store == Broken)))
            && (reply.Failed? || reply.Renewed?)
  {
    var s, c, e := w.store, st.call, st.env;
    assert Served(cfg, w, st) == ActChangePassword(cfg, s, c, e, Look(s, c));
    var updated := UpdateUser(s, c.userId, UserPatch("", Some(PasswordHash(Stream(c.next))), ""));
    FreshRowFits(cfg, w, st, c.userId, DeleteByUserId(updated, c.userId));
  }

  lemma DeleteAccountReplies(cfg: Config, w: World, st: Step)
    requires st.call.DeleteAccount?
    ensures var u, f, s, reply := st.call.userId, st.env.faults, w.store, ReplyOf(cfg, w, st);
            var found := !f.cancelled && !f.lookup && u in s.users && !s.users[u].deleted;
            && (reply == Failed(UserNotFound) <==> !f.cancelled && !f.lookup && !found)
            && (reply == Failed(Cancelled) <==> f.cancelled || (found && f.revoke == Cut))
            && (reply == Failed(CommitFailed) <==> found && f.revoke == Fine && !f.delete && f.commit)
            && (reply == Failed(Internal) <==>
                  (!f.cancelled && f.lookup) || (found && (f.revoke == Broken || (f.revoke == Fine && f.delete))))
            && (reply.Failed? || reply == Done)
  {
    assert Served(cfg, w, st) == ActDeleteAccount(w.store, st.call, st.env, Look(w.store, st.call));
  }

  /** Logout and sweep fail only for outside reasons, and say which. */
  lemma CleanupReplies(cfg: Config, w: World, st: Step)
    requires st.call.Revoke? || st.call.Purge?
    ensures var f, reply := st.env.faults, ReplyOf(cfg, w, st);
            && (st.call.Revoke? ==>
                  reply == if f.cancelled || f.revoke == Cut then Failed(Cancelled)
                           else if f.revoke == Broken then Failed(Internal) else Done)
            && (st.call.Purge? ==>
                  && (reply == Failed(Cancelled) <==> f.cancelled)
                  && (reply == Failed(Internal) <==> !f.cancelled && f.remove)
                  && (reply.Purged? <==> !f.cancelled && !f.remove))
  {
  }

  lemma GetUserReplies(cfg: Config, w: World, st: Step)
    requires st.call.GetUser?
    ensures var parsed, f, users, reply := st.call.parsed, st.env.faults, w.store.users, ReplyOf(cfg, w, st);
            reply
            == if f.cancelled then Failed(Cancelled)
               else if parsed.None? then Failed(InvalidUserId)
               else if f.lookup then Failed(Internal)
               else if parsed.value !in users || users[parsed.value].deleted then Failed(UserNotFound)
               else Found(Profile(parsed.value, users[parsed.value].email, users[parsed.value].name))
  {
  }

  /** A listing echoes its window: page 1 and 20 rows unless asked otherwise, never more than 100 rows. */
  lemma ListSessionsReplies(cfg: Config, w: World, st: Step)
    requires st.call.ListSessions?
    ensures var p, f, reply := st.call.window, st.env.faults, ReplyOf(cfg, w, st);
            && (reply == Failed(Cancelled) <==> f.cancelled)
            && (reply == Failed(Internal) <==> !f.cancelled && f.lookup)
            && (reply.Listed? <==> !f.cancelled && !f.lookup)
            && (reply.Listed? ==>
                  && reply.page == (if p.page < 1 then 1 else p.page)
                  && reply.limit == (if p.limit < 1 then 20 else if p.limit > 100 then 100 else p.limit)
                  && |reply.sessions| <= reply.limit)
  {
  }

  // ----- Repository calls --------------------------------------------------

  /** An update writes the columns the patch names, to a row that is not deleted, unless another row has the address. */
  lemma UpdateWrites(s: Store, id: Uuid, patch: UserPatch)
    ensures var s' := UpdateUser(s, id, patch);
            var held := exists other :: other in s.users && other != id && s.users[other].email == patch.email;
            var taken := patch.email != "" && held;
            && s'.tokens == s.tokens && s'.users.Keys == s.users.Keys
            && (forall u :: u in s.users && u != id ==> s'.users[u] == s.users[u])
            && (id in s.users ==>
                  var row, row' := s.users[id], s'.users[id];
                  if row.deleted || taken then row' == row
                  else
                    && row'.email == (if patch.email == "" then row.email else patch.email)
                    && row'.password == (if patch.password.None? then row.password else patch.password.value)
                    && row'.name == (if patch.name == "" then row.name else patch.name)
                    && !row'.deleted)
  {
    if !PatchFits(s, id, patch) {
      var other :| other in s.users && other != id && s.users[other].email == patch.email;
    }
  }
}
