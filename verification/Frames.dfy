/** What any half of a call can change, whatever its read returned: the facts both run models rest on. */
module Frames {
  import opened Wrappers
  import opened Entities
  import opened Credentials
  import opened Protocol

  predicate Issues(reply: Reply) {
    reply.SignedIn? || reply.Renewed?
  }

  /** The one digest a step may add. */
  ghost predicate IsMinted(cfg: Config, e: Env, reply: Reply, d: Digest, row: TokenRow) {
    && Issues(reply)
    && d == Hash(reply.issued.refresh)
    && reply.issued.refresh == MintedToken(cfg, row.userId, e)
    && row == MintedRow(cfg, row.userId, e)
  }

  /** Rows are only ever removed, or minted under the digest of the refresh token in the reply. */
  ghost predicate TokensFrame(cfg: Config, s: Store, e: Env, f: Effect) {
    && (forall d :: d in f.store.tokens ==>
          || (d in s.tokens && f.store.tokens[d] == s.tokens[d])
          || IsMinted(cfg, e, f.reply, d, f.store.tokens[d]))
    && (Issues(f.reply) ==> Hash(f.reply.issued.refresh) in f.store.tokens
                            && IsMinted(cfg, e, f.reply, Hash(f.reply.issued.refresh),
                                        f.store.tokens[Hash(f.reply.issued.refresh)]))
  }

  /** Accounts are never removed, never renamed, and never come back from deletion. */
  ghost predicate UsersFrame(s: Store, f: Effect) {
    forall u :: u in s.users ==>
      && u in f.store.users
      && f.store.users[u].email == s.users[u].email
      && f.store.users[u].name == s.users[u].name
      && (s.users[u].deleted ==> f.store.users[u] == s.users[u])
  }

  lemma RegisterFrame(cfg: Config, s: Store, c: Call, e: Env, seen: Seen)
    requires c.Register?
    ensures TokensFrame(cfg, s, e, ActRegister(cfg, s, c, e, seen)) && UsersFrame(s, ActRegister(cfg, s, c, e, seen))
  {
  }

  lemma LoginFrame(cfg: Config, s: Store, c: Call, e: Env, seen: Seen)
    requires c.Login?
    ensures TokensFrame(cfg, s, e, ActLogin(cfg, s, c, e, seen)) && UsersFrame(s, ActLogin(cfg, s, c, e, seen))
  {
  }

  lemma RefreshFrame(cfg: Config, s: Store, c: Call, e: Env, seen: Seen)
    requires c.Refresh?
    ensures TokensFrame(cfg, s, e, ActRefresh(cfg, s, c, e, seen)) && UsersFrame(s, ActRefresh(cfg, s, c, e, seen))
  {
  }

  lemma ChangePasswordFrame(cfg: Config, s: Store, c: Call, e: Env, seen: Seen)
    requires c.ChangePassword?
    ensures TokensFrame(cfg, s, e, ActChangePassword(cfg, s, c, e, seen))
            && UsersFrame(s, ActChangePassword(cfg, s, c, e, seen))
  {
  }

  lemma ActFrame(cfg: Config, s: Store, c: Call, e: Env, seen: Seen)
    ensures TokensFrame(cfg, s, e, Act(cfg, s, c, e, seen))
    ensures UsersFrame(s, Act(cfg, s, c, e, seen))
  {
    match c
    case Register(_, _, _, _) => RegisterFrame(cfg, s, c, e, seen);
    case Login(_, _) => LoginFrame(cfg, s, c, e, seen);
    case Refresh(_) => RefreshFrame(cfg, s, c, e, seen);
    case ChangePassword(_, _, _) => ChangePasswordFrame(cfg, s, c, e, seen);
    case DeleteAccount(_) =>
    case Revoke(_) =>
    case Purge =>
    case GetUser(_) =>
    case ListSessions(_, _, _) =>
  }

  // ----- What every half of a call keeps ----------------------------------

  ghost predicate UniqueEmails(s: Store) {
    forall u, u' :: u in s.users && u' in s.users && s.users[u].email == s.users[u'].email ==> u == u'
  }

  lemma EmailsStayUnique(cfg: Config, s: Store, c: Call, e: Env, seen: Seen)
    requires UniqueEmails(s)
    ensures UniqueEmails(Act(cfg, s, c, e, seen).store)
  {
    match c
    case Register(_, _, _, _) => assert Act(cfg, s, c, e, seen) == ActRegister(cfg, s, c, e, seen);
    case Login(_, _) => assert Act(cfg, s, c, e, seen) == ActLogin(cfg, s, c, e, seen);
    case Refresh(_) => assert Act(cfg, s, c, e, seen) == ActRefresh(cfg, s, c, e, seen);
    case ChangePassword(_, _, _) => assert Act(cfg, s, c, e, seen) == ActChangePassword(cfg, s, c, e, seen);
    case DeleteAccount(_) => assert Act(cfg, s, c, e, seen) == ActDeleteAccount(s, c, e, seen);
    case Revoke(_) =>
    case Purge =>
    case GetUser(_) =>
    case ListSessions(_, _, _) =>
  }

  /** The call is a change of the account's password or its deletion. */
  predicate ChangesAccount(c: Call, u: Uuid) {
    (c.ChangePassword? || c.DeleteAccount?) && c.userId == u
  }

  /** Nothing but a successful change or deletion of the account touches its row. */
  lemma AccountRowKept(cfg: Config, s: Store, c: Call, e: Env, seen: Seen, u: Uuid)
    requires u in s.users && !(ChangesAccount(c, u) && !Act(cfg, s, c, e, seen).reply.Failed?)
    ensures u in Act(cfg, s, c, e, seen).store.users && Act(cfg, s, c, e, seen).store.users[u] == s.users[u]
  {
    match c
    case Register(_, _, _, _) => assert Act(cfg, s, c, e, seen) == ActRegister(cfg, s, c, e, seen);
    case Login(_, _) => assert Act(cfg, s, c, e, seen) == ActLogin(cfg, s, c, e, seen);
    case Refresh(_) => assert Act(cfg, s, c, e, seen) == ActRefresh(cfg, s, c, e, seen);
    case ChangePassword(_, _, _) => assert Act(cfg, s, c, e, seen) == ActChangePassword(cfg, s, c, e, seen);
    case DeleteAccount(_) => assert Act(cfg, s, c, e, seen) == ActDeleteAccount(s, c, e, seen);
    case Revoke(_) =>
    case Purge =>
    case GetUser(_) =>
    case ListSessions(_, _, _) =>
  }

  /** The one visible account with an address is the one a lookup by address finds. */
  lemma FoundByEmail(s: Store, u: Uuid)
    requires UniqueEmails(s) && Visible(s, u)
    ensures FindByEmail(s, s.users[u].email) == Some(Account(u, s.users[u]))
  {
    assert u in Holders(s, s.users[u].email);
  }

  // ----- Whom a pair is for ----------------------------------------------

  lemma RegisterPair(cfg: Config, s: Store, c: Call, e: Env, seen: Seen)
    requires c.Register? && Issues(ActRegister(cfg, s, c, e, seen).reply)
    ensures var f := ActRegister(cfg, s, c, e, seen);
            && f.reply.issued.refresh.userId == c.newId
            && f.reply.issued.access == AccessToken(c.newId, c.email, c.name)
            && c.newId !in s.users && Visible(f.store, c.newId)
            && f.store.users[c.newId].email == c.email && f.store.users[c.newId].name == c.name
  {
  }

  lemma LoginPair(cfg: Config, s: Store, c: Call, e: Env, seen: Seen)
    requires c.Login? && Issues(ActLogin(cfg, s, c, e, seen).reply)
    ensures seen.SeenUser? && seen.user.Some?
    ensures var f, a := ActLogin(cfg, s, c, e, seen), seen.user.value;
            && f.reply.issued.refresh.userId == a.id
            && f.reply.issued.access == AccessToken(a.id, a.row.email, a.row.name)
            && f.store.users == s.users
  {
  }

  lemma RefreshPair(cfg: Config, s: Store, c: Call, e: Env, seen: Seen)
    requires c.Refresh? && Issues(ActRefresh(cfg, s, c, e, seen).reply)
    ensures c.presented.Signed? && seen.SeenRow? && seen.row.Some?
    ensures var f, u := ActRefresh(cfg, s, c, e, seen), c.presented.token.userId;
            && f.reply.issued.refresh.userId == u && f.reply.issued.access == AccessToken(u, "", "")
            && f.store.users == s.users
            && (c.presented.token.jti != e.jti ==> Hash(c.presented.token) !in f.store.tokens)
  {
  }

  lemma ChangePasswordPair(cfg: Config, s: Store, c: Call, e: Env, seen: Seen)
    requires c.ChangePassword? && Issues(ActChangePassword(cfg, s, c, e, seen).reply)
    ensures seen.SeenUser? && seen.user.Some?
    ensures var f, a := ActChangePassword(cfg, s, c, e, seen), seen.user.value;
            && f.reply.issued.refresh.userId == a.id
            && f.reply.issued.access == AccessToken(a.id, a.row.email, a.row.name)
            && f.store.users.Keys == s.users.Keys
            && forall u :: u in s.users ==> f.store.users[u].deleted == s.users[u].deleted
  {
  }
}
