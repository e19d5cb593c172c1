/** Exactly when each call succeeds, and exactly which rows it changes, in a reachable world. */
module Decisions {
  import opened Wrappers
  import opened Entities
  import opened Credentials
  import opened Protocol
  import opened Frames
  import opened Runs

  ghost predicate Removed(cfg: Config, w: World, st: Step, d: Digest) {
    d in w.store.tokens && d !in Next(cfg, w, st).store.tokens
  }

  /** The seven ways a row leaves the table. */
  ghost predicate Retires(cfg: Config, w: World, st: Step, d: Digest)
    requires d in w.store.tokens
  {
    var c, e, reply := st.call, st.env, ReplyOf(cfg, w, st);
    match c
    case Refresh(p) =>
      && p.Signed?
      && (|| (Hash(p.token) == d && reply.Renewed?)
          || (Hash(p.token) == d && reply == Failed(RefreshTokenExpired) && !e.faults.remove)
          || (p.token.userId == w.store.tokens[d].userId && reply == Failed(RefreshTokenRevoked)
              && e.faults.revoke.Fine?))
    case ChangePassword(u, _, _) => u == w.store.tokens[d].userId && !reply.Failed?
    case DeleteAccount(u) => u == w.store.tokens[d].userId && !reply.Failed?
    case Revoke(u) => u == w.store.tokens[d].userId && !reply.Failed?
    case Purge => w.store.tokens[d].expiresAt < e.clock.entry && !reply.Failed?
    case _ => false
  }

  lemma RefreshDrops(cfg: Config, s: Store, c: Call, e: Env, seen: Seen, d: Digest)
    requires c.Refresh? && d in s.tokens && d.token.jti != e.jti
    requires s.tokens[d].userId == d.token.userId
    ensures var f := ActRefresh(cfg, s, c, e, seen);
            d !in f.store.tokens <==>
              && c.presented.Signed?
              && (|| (Hash(c.presented.token) == d && f.reply.Renewed?)
                  || (Hash(c.presented.token) == d && f.reply == Failed(RefreshTokenExpired) && !e.faults.remove)
                  || (c.presented.token.userId == s.tokens[d].userId && f.reply == Failed(RefreshTokenRevoked)
                      && e.faults.revoke.Fine?))
  {
  }

  lemma ChangePasswordDrops(cfg: Config, s: Store, c: Call, e: Env, seen: Seen, d: Digest)
    requires c.ChangePassword? && d in s.tokens && d.token.jti != e.jti
    ensures var f := ActChangePassword(cfg, s, c, e, seen);
            d !in f.store.tokens <==> c.userId == s.tokens[d].userId && !f.reply.Failed?
  {
  }

  /** Signing in adds a row and removes none. */
  lemma SignInDropsNothing(cfg: Config, s: Store, c: Call, e: Env, seen: Seen, d: Digest)
    requires d in s.tokens
    ensures c.Register? ==> d in ActRegister(cfg, s, c, e, seen).store.tokens
    ensures c.Login? ==> d in ActLogin(cfg, s, c, e, seen).store.tokens
  {
  }

  /** A row leaves the table in exactly those seven ways, and a surviving row is never altered. */
  lemma RowRemovedExactly(cfg: Config, w: World, st: Step, d: Digest)
    requires Inv(w) && Enabled(w, st) && d in w.store.tokens
    ensures Removed(cfg, w, st, d) <==> Retires(cfg, w, st, d)
    ensures !Removed(cfg, w, st, d) ==> Next(cfg, w, st).store.tokens[d] == w.store.tokens[d]
  {
    var s, c, e := w.store, st.call, st.env;
    if !Removed(cfg, w, st, d) { OldOrNew(cfg, w, st, d); }
    RowFact(w, d);
    match c
    case Register(_, _, _, _) => SignInDropsNothing(cfg, s, c, e, Look(s, c), d);
    case Login(_, _) => SignInDropsNothing(cfg, s, c, e, Look(s, c), d);
    case Refresh(_) => RefreshDrops(cfg, s, c, e, Look(s, c), d);
    case ChangePassword(_, _, _) => ChangePasswordDrops(cfg, s, c, e, Look(s, c), d);
    case DeleteAccount(_) => assert Served(cfg, w, st) == ActDeleteAccount(s, c, e, Look(s, c));
    case Revoke(_) =>
    case Purge =>
    case GetUser(_) =>
    case ListSessions(_, _, _) =>
  }

  /** The identifiers of a fresh row are free in a reachable world. */
  lemma FreshRowFits(cfg: Config, w: World, st: Step, u: Uuid, s: Store)
    requires Inv(w) && Enabled(w, st)
    requires forall d :: d in s.tokens ==> d in w.store.tokens && s.tokens[d] == w.store.tokens[d]
    ensures TokenKeysFree(s, st.env.rowId, Hash(MintedToken(cfg, u, st.env)))
  {
    forall d | d in s.tokens ensures d != Hash(MintedToken(cfg, u, st.env)) && s.tokens[d].id != st.env.rowId {
      RowFact(w, d);
    }
  }

  /** Registration succeeds exactly on an unused identifier and an address no account, deleted or not, holds. */
  lemma RegisterDecides(cfg: Config, w: World, st: Step)
    requires Inv(w) && Enabled(w, st) && st.call.Register?
    ensures var c, f := st.call, st.env.faults;
            ReplyOf(cfg, w, st).SignedIn? <==>
              && !f.cancelled && !f.lookup && !f.create && !f.sign && f.store.Fine? && !f.commit
              && |c.password| <= BCRYPT_MAX && c.newId !in w.store.users
              && forall u :: u in w.store.users ==> w.store.users[u].email != c.email
    ensures var c, w' := st.call, Next(cfg, w, st);
            ReplyOf(cfg, w, st).SignedIn? ==>
              w'.store.users
              == w.store.users[c.newId := UserRow(c.email, PasswordHash(Stream(c.password)), c.name, false)]
  {
    var s, c, e := w.store, st.call, st.env;
    assert Served(cfg, w, st) == ActRegister(cfg, s, c, e, Look(s, c));
    FreshRowFits(cfg, w, st, c.newId, s);
    if Look(s, c).user.Some? {
      var id := Look(s, c).user.value.id;
      assert id in Holders(s, c.email) && id in s.users;
    }
  }

  /** A password change succeeds exactly for a visible account, its current password and a hashable new one. */
  lemma ChangePasswordDecides(cfg: Config, w: World, st: Step)
    requires Inv(w) && Enabled(w, st) && st.call.ChangePassword?
    ensures var c, f := st.call, st.env.faults;
            ReplyOf(cfg, w, st).Renewed? <==>
              && !f.cancelled && !f.lookup && !f.update && f.revoke.Fine? && !f.sign && f.store.Fine? && !f.commit
              && Visible(w.store, c.userId) && Matches(w.store.users[c.userId].password, c.current)
              && |c.next| <= BCRYPT_MAX
  {
    var s, c, e := w.store, st.call, st.env;
    assert Served(cfg, w, st) == ActChangePassword(cfg, s, c, e, Look(s, c));
    if |c.next| <= BCRYPT_MAX {
      var updated := UpdateUser(s, c.userId, UserPatch("", Some(PasswordHash(Stream(c.next))), ""));
      FreshRowFits(cfg, w, st, c.userId, DeleteByUserId(updated, c.userId));
    }
  }

  /** A deletion succeeds exactly for a visible account; it hides that account and nothing else. */
  lemma DeleteAccountDecides(cfg: Config, w: World, st: Step)
    requires st.call.DeleteAccount?
    ensures var u, f := st.call.userId, st.env.faults;
            ReplyOf(cfg, w, st) == Reply.Done <==>
              !f.cancelled && !f.lookup && f.revoke.Fine? && !f.delete && !f.commit && Visible(w.store, u)
    ensures ReplyOf(cfg, w, st) == Reply.Done ==>
              var u := st.call.userId;
              Next(cfg, w, st).store.users == w.store.users[u := w.store.users[u].(deleted := true)]
  {
    var s, c, e := w.store, st.call, st.env;
    assert Served(cfg, w, st) == ActDeleteAccount(s, c, e, Look(s, c));
  }

  /** The row stored for a pair belongs to the account the pair names. */
  lemma IssuedRowIsTheAccounts(cfg: Config, s: Store, c: Call, e: Env, seen: Seen)
    requires Issues(Act(cfg, s, c, e, seen).reply)
    ensures var f := Act(cfg, s, c, e, seen);
            var d := Hash(f.reply.issued.refresh);
            d in f.store.tokens && f.store.tokens[d].userId == f.reply.issued.refresh.userId
  {
    ActFrame(cfg, s, c, e, seen);
  }

  lemma AccessTokenIsTheAccounts(cfg: Config, s: Store, c: Call, e: Env)
    requires Issues(Serve(cfg, s, c, e).reply)
    ensures var f := Serve(cfg, s, c, e);
            var pair, u := f.reply.issued, f.reply.issued.refresh.userId;
            && pair.access.userId == u
            && (!c.Refresh? ==>
                  && u in f.store.users
                  && pair.access == AccessToken(u, f.store.users[u].email, f.store.users[u].name))
            && (c.Refresh? ==> c.presented.Signed? && pair.access == AccessToken(c.presented.token.userId, "", ""))
  {
    match c
    case Register(_, _, _, _) => RegisterPair(cfg, s, c, e, Look(s, c));
    case Login(_, _) => LoginPair(cfg, s, c, e, Look(s, c));
    case Refresh(_) => RefreshPair(cfg, s, c, e, Look(s, c));
    case ChangePassword(_, _, _) =>
      ChangePasswordPair(cfg, s, c, e, Look(s, c));
      ChangePasswordFrame(cfg, s, c, e, Look(s, c));
    case DeleteAccount(_) =>
    case Revoke(_) =>
    case Purge =>
    case GetUser(_) =>
    case ListSessions(_, _, _) =>
  }

  /**
   The pair a call hands out names one account, visible afterwards. Register,
   Login and ChangePassword put the account's address and name in the access
   token; Refresh, whose token carries neither, preserves only the identifier.
   */
  lemma IssuedPairNamesTheAccount(cfg: Config, w: World, st: Step)
    requires Inv(w) && Enabled(w, st) && Issues(ReplyOf(cfg, w, st))
    ensures var pair, w' := ReplyOf(cfg, w, st).issued, Next(cfg, w, st);
            var u := pair.refresh.userId;
            && pair.access.userId == u && Visible(w'.store, u)
            && Hash(pair.refresh) in w'.store.tokens && w'.store.tokens[Hash(pair.refresh)].userId == u
            && (!st.call.Refresh? ==> pair.access == AccessToken(u, w'.store.users[u].email, w'.store.users[u].name))
            && (st.call.Refresh? ==> pair.access == AccessToken(st.call.presented.token.userId, "", ""))
  {
    IssueIsForVisibleUser(cfg, w, st);
    IssuedRowIsTheAccounts(cfg, w.store, st.call, st.env, Look(w.store, st.call));
    AccessTokenIsTheAccounts(cfg, w.store, st.call, st.env);
  }

  lemma SessionSurvivesStep(cfg: Config, ws: seq<World>, steps: seq<Step>, i: nat, d: Digest)
    requires Run(cfg, ws, steps) && i < |steps| && d in ws[i].store.tokens && !Retires(cfg, ws[i], steps[i], d)
    ensures d in ws[i + 1].store.tokens && ws[i + 1].store.tokens[d] == ws[i].store.tokens[d]
  {
    InvThroughout(cfg, ws, steps, i);
    assert Follows(cfg, ws, steps, i);
    RowRemovedExactly(cfg, ws[i], steps[i], d);
  }

  /** A session stays as long as nothing retires it. */
  lemma {:induction false} SessionSurvives(cfg: Config, ws: seq<World>, steps: seq<Step>, i: nat, j: nat, d: Digest)
    requires Run(cfg, ws, steps) && i <= j < |ws| && d in ws[i].store.tokens
    requires forall k :: i <= k < j && d in ws[k].store.tokens ==> !Retires(cfg, ws[k], steps[k], d)
    ensures d in ws[j].store.tokens && ws[j].store.tokens[d] == ws[i].store.tokens[d]
  {
    if i < j {
      SessionSurvives(cfg, ws, steps, i, j - 1, d);
      SessionSurvivesStep(cfg, ws, steps, j - 1, d);
    }
  }
}
