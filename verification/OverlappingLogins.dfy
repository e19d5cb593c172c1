/** Logins that overlap other calls: what decides them, and exactly when an old password still works. */
module OverlappingLogins {
  import opened Wrappers
  import opened Entities
  import opened Credentials
  import opened Protocol
  import opened Frames
  import opened Interleaving

  ghost predicate EndsLogin(ws: seq<World>, evs: seq<Event>, m: nat, email: string, password: Password)
    requires |ws| == |evs| + 1
  {
    && m < |evs| && evs[m].End? && evs[m].id in ws[m].pending
    && ws[m].pending[evs[m].id].call == Login(email, password)
  }

  ghost predicate CanIssue(f: Faults) {
    !f.cancelled && !f.lookup && !f.sign && f.store.Fine?
  }

  lemma LoginIgnoresTheTable(cfg: Config, s: Store, c: Call, e: Env, seen: Seen)
    requires c.Login? && forall d :: d in s.tokens ==> d.token.jti != e.jti && s.tokens[d].id != e.rowId
    ensures Act(cfg, s, c, e, seen).reply.SignedIn? <==>
              && CanIssue(e.faults)
              && seen.SeenUser? && seen.user.Some? && Matches(seen.user.value.row.password, c.password)
  {
    assert Act(cfg, s, c, e, seen) == ActLogin(cfg, s, c, e, seen);
  }

  /**
   A login is decided by its read: it succeeds exactly when nothing fails and the
   account it found in the world it began in has a matching password there.
   */
  lemma LoginIsDecidedByItsRead(cfg: Config, ws: seq<World>, evs: seq<Event>, m: nat, email: string, password: Password)
    requires Trace(cfg, ws, evs) && EndsLogin(ws, evs, m, email, password)
    ensures var b := ws[m].pending[evs[m].id].begun;
            && b < m && evs[b].Begin?
            && (Ended(cfg, ws[m], evs[m]).reply.SignedIn? <==>
                  && CanIssue(evs[m].env.faults)
                  && FindByEmail(ws[b].store, email).Some?
                  && Matches(FindByEmail(ws[b].store, email).value.row.password, password))
  {
    var p := ws[m].pending[evs[m].id];
    SeenWhenBegun(cfg, ws, evs, m, evs[m].id);
    RowsOldThroughout(cfg, ws, evs, m);
    assert Follows(cfg, ws, evs, m);
    LoginIgnoresTheTable(cfg, ws[m].store, p.call, evs[m].env, p.seen);
  }

  // ----- The account across the trace -------------------------------------

  lemma EmailsUniqueAfter(cfg: Config, ws: seq<World>, evs: seq<Event>, i: nat)
    requires Trace(cfg, ws, evs) && i < |evs| && UniqueEmails(ws[i].store)
    ensures UniqueEmails(ws[i + 1].store)
  {
    var w, ev := ws[i], evs[i];
    assert Follows(cfg, ws, evs, i);
    if ev.End? {
      EmailsStayUnique(cfg, w.store, w.pending[ev.id].call, ev.env, w.pending[ev.id].seen);
    }
  }

  lemma {:induction false} EmailsUniqueThroughout(cfg: Config, ws: seq<World>, evs: seq<Event>, i: nat)
    requires Trace(cfg, ws, evs) && i < |ws| && UniqueEmails(ws[0].store)
    ensures UniqueEmails(ws[i].store)
  {
    if i > 0 {
      EmailsUniqueThroughout(cfg, ws, evs, i - 1);
      EmailsUniqueAfter(cfg, ws, evs, i - 1);
    }
  }

  /** Event k changes the password of the account or deletes it. */
  ghost predicate ChangesAt(cfg: Config, ws: seq<World>, evs: seq<Event>, k: nat, u: Uuid)
    requires |ws| == |evs| + 1
  {
    && k < |evs| && evs[k].End? && evs[k].id in ws[k].pending
    && ChangesAccount(ws[k].pending[evs[k].id].call, u) && !Ended(cfg, ws[k], evs[k]).reply.Failed?
  }

  lemma RowKeptByEvent(cfg: Config, ws: seq<World>, evs: seq<Event>, i: nat, u: Uuid)
    requires Trace(cfg, ws, evs) && i < |evs| && u in ws[i].store.users && !ChangesAt(cfg, ws, evs, i, u)
    ensures u in ws[i + 1].store.users && ws[i + 1].store.users[u] == ws[i].store.users[u]
  {
    var w, ev := ws[i], evs[i];
    assert Follows(cfg, ws, evs, i);
    if ev.End? {
      AccountRowKept(cfg, w.store, w.pending[ev.id].call, ev.env, w.pending[ev.id].seen, u);
    }
  }

  lemma {:induction false} RowKeptThroughout(cfg: Config, ws: seq<World>, evs: seq<Event>, i: nat, j: nat, u: Uuid)
    requires Trace(cfg, ws, evs) && i <= j < |ws| && u in ws[i].store.users
    requires forall k :: i <= k < j ==> !ChangesAt(cfg, ws, evs, k, u)
    ensures u in ws[j].store.users && ws[j].store.users[u] == ws[i].store.users[u]
  {
    if i < j {
      RowKeptThroughout(cfg, ws, evs, i, j - 1, u);
      RowKeptByEvent(cfg, ws, evs, j - 1, u);
    }
  }

  // ----- The old password -------------------------------------------------

  /** Event i commits a password change of an account that is visible at that moment. */
  ghost predicate EndsChange(cfg: Config, ws: seq<World>, evs: seq<Event>, i: nat, u: Uuid, next: Password)
    requires |ws| == |evs| + 1
  {
    && i < |evs| && evs[i].End? && evs[i].id in ws[i].pending
    && var c := ws[i].pending[evs[i].id].call;
    && c.ChangePassword? && c.userId == u && c.next == next
    && Ended(cfg, ws[i], evs[i]).reply.Renewed? && Visible(ws[i].store, u)
  }

  lemma ChangeWrites(cfg: Config, s: Store, c: Call, e: Env, seen: Seen)
    requires c.ChangePassword? && Visible(s, c.userId) && Act(cfg, s, c, e, seen).reply.Renewed?
    ensures Act(cfg, s, c, e, seen).store.users
            == s.users[c.userId := s.users[c.userId].(password := PasswordHash(Stream(c.next)))]
  {
    assert Act(cfg, s, c, e, seen) == ActChangePassword(cfg, s, c, e, seen);
  }

  lemma ChangeCommitted(cfg: Config, ws: seq<World>, evs: seq<Event>, i: nat, u: Uuid, next: Password)
    requires Trace(cfg, ws, evs) && EndsChange(cfg, ws, evs, i, u, next)
    ensures Visible(ws[i + 1].store, u)
    ensures ws[i + 1].store.users[u] == ws[i].store.users[u].(password := PasswordHash(Stream(next)))
  {
    var p := ws[i].pending[evs[i].id];
    assert Follows(cfg, ws, evs, i);
    ChangeWrites(cfg, ws[i].store, p.call, evs[i].env, p.seen);
  }

  /** Whatever a lookup by the account's address found earlier, it was the account itself. */
  lemma EarlierLookup(cfg: Config, ws: seq<World>, evs: seq<Event>, b: nat, i: nat, u: Uuid)
    requires Trace(cfg, ws, evs) && b <= i < |ws| && u in ws[i].store.users && UniqueEmails(ws[0].store)
    ensures var email := ws[i].store.users[u].email;
            FindByEmail(ws[b].store, email)
            == if Visible(ws[b].store, u) then Some(Account(u, ws[b].store.users[u])) else None
  {
    var email := ws[i].store.users[u].email;
    EmailsUniqueThroughout(cfg, ws, evs, b);
    EmailsUniqueThroughout(cfg, ws, evs, i);
    if Visible(ws[b].store, u) {
      AccountsStayThroughout(cfg, ws, evs, b, i, u);
      FoundByEmail(ws[b].store, u);
    }
    var found := FindByEmail(ws[b].store, email);
    if found.Some? {
      assert found.value.id in Holders(ws[b].store, email);
      AccountsStayThroughout(cfg, ws, evs, b, i, found.value.id);
    }
  }

  /**
   After a password change has committed, and until the next change or deletion, a
   login that meets no fault with a password the new one is told apart from still
   succeeds exactly when it read the account, with a matching password, before the
   commit.
   */
  lemma StaleLoginIsExactlyOverlap(cfg: Config, ws: seq<World>, evs: seq<Event>, i: nat, m: nat, u: Uuid,
                                   next: Password, password: Password)
    requires Trace(cfg, ws, evs) && UniqueEmails(ws[0].store) && i < m
    requires EndsChange(cfg, ws, evs, i, u, next) && Stream(password) != Stream(next)
    requires EndsLogin(ws, evs, m, ws[i].store.users[u].email, password) && CanIssue(evs[m].env.faults)
    requires forall k :: i < k < m ==> !ChangesAt(cfg, ws, evs, k, u)
    ensures var b := ws[m].pending[evs[m].id].begun;
            && b < m
            && (Ended(cfg, ws[m], evs[m]).reply.SignedIn? <==>
                  && b < i && Visible(ws[b].store, u) && Matches(ws[b].store.users[u].password, password))
  {
    var b := ws[m].pending[evs[m].id].begun;
    var email := ws[i].store.users[u].email;
    LoginIsDecidedByItsRead(cfg, ws, evs, m, email, password);
    if b < i {
      EarlierLookup(cfg, ws, evs, b, i, u);
    } else {
      ChangeCommitted(cfg, ws, evs, i, u, next);
      RowKeptThroughout(cfg, ws, evs, i + 1, b, u);
      EmailsUniqueThroughout(cfg, ws, evs, b);
      FoundByEmail(ws[b].store, u);
    }
  }

  lemma FreshChangeSucceeds(cfg: Config, s: Store, c: Call, e: Env)
    requires c.ChangePassword? && Visible(s, c.userId) && Matches(s.users[c.userId].password, c.current)
    requires |c.next| <= BCRYPT_MAX && e.faults == CALM
    requires forall d :: d in s.tokens ==> d.token.jti != e.jti && s.tokens[d].id != e.rowId
    ensures Serve(cfg, s, c, e).reply.Renewed?
  {
    assert Serve(cfg, s, c, e) == ActChangePassword(cfg, s, c, e, Look(s, c));
  }

  /** A login reads the account, and then the password is changed. */
  lemma ChangeOverLogin(cfg: Config) returns (ws: seq<World>, evs: seq<Event>)
    ensures AfterRegistration(cfg, ws, evs) && |evs| == 5 && EndsChange(cfg, ws, evs, 4, 7, NEW_PASSWORD)
    ensures ws[2].store == ws[3].store == ws[4].store && ws[5].ids == {1, 2}
    ensures 1 in ws[5].pending && ws[5].pending[1] == Pending(Login(ADDRESS, OLD_PASSWORD), 0, ws[5].pending[1].seen, 2)
  {
    var login, change, e := Login(ADDRESS, OLD_PASSWORD), ChangePassword(7, OLD_PASSWORD, NEW_PASSWORD), At(0, 2);
    ws, evs := RegisterAlice(cfg);
    var w3 := OneMore(cfg, ws, evs, Begin(1, login, 0));
    ws, evs := ws + [w3], evs + [Begin(1, login, 0)];
    var w4 := OneMore(cfg, ws, evs, Begin(2, change, 0));
    ws, evs := ws + [w4], evs + [Begin(2, change, 0)];
    FreshChangeSucceeds(cfg, w4.store, change, e);
    var w5 := OneMore(cfg, ws, evs, End(2, e));
    ws, evs := ws + [w5], evs + [End(2, e)];
  }

  /** A login that read the old password is signed in after the change to a new one. */
  lemma LoginWithTheOldPassword(cfg: Config) returns (ws: seq<World>, evs: seq<Event>)
    ensures AfterRegistration(cfg, ws, evs) && |evs| == 6
    ensures EndsChange(cfg, ws, evs, 4, 7, NEW_PASSWORD)
    ensures Visible(ws[5].store, 7) && !Matches(ws[5].store.users[7].password, OLD_PASSWORD)
    ensures EndsLogin(ws, evs, 5, ADDRESS, OLD_PASSWORD) && Ended(cfg, ws[5], evs[5]).reply.SignedIn?
  {
    ws, evs := ChangeOverLogin(cfg);
    ChangeCommitted(cfg, ws, evs, 4, 7, NEW_PASSWORD);
    StreamIsExact(OLD_PASSWORD, NEW_PASSWORD);
    var w6 := OneMore(cfg, ws, evs, End(1, At(0, 3)));
    ws, evs := ws + [w6], evs + [End(1, At(0, 3))];
    StaleLoginIsExactlyOverlap(cfg, ws, evs, 4, 5, 7, NEW_PASSWORD, OLD_PASSWORD);
  }
}
