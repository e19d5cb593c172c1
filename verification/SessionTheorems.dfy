/** What holds along every serial run of the service. */
module SessionTheorems {
  import opened Wrappers
  import opened Arithmetic
  import opened Entities
  import opened Credentials
  import opened Listing
  import opened Protocol
  import opened Frames
  import opened Runs
  import opened Decisions

  // ----- Fault atomicity -------------------------------------------------

  /**
   A failed call leaves both tables as they were, for every combination of
   failing steps and whatever its read saw. The only exceptions are the two
   branches of Refresh that clean up: an expired row, or all rows of a user
   whose token was presented without a row.
   */
  lemma FaultAtomicity(cfg: Config, s: Store, c: Call, e: Env, seen: Seen)
    requires Act(cfg, s, c, e, seen).reply.Failed?
    ensures !c.Refresh? ==> Act(cfg, s, c, e, seen).store == s
    ensures c.Refresh? && Act(cfg, s, c, e, seen).store != s ==>
              && c.presented.Signed?
              && (|| (Act(cfg, s, c, e, seen)
                      == Effect(DeleteByTokenHash(s, Hash(c.presented.token)), Failed(RefreshTokenExpired)))
                  || (Act(cfg, s, c, e, seen)
                      == Effect(DeleteByUserId(s, c.presented.token.userId), Failed(RefreshTokenRevoked))))
  {
    match c
    case Register(_, _, _, _) => assert Act(cfg, s, c, e, seen) == ActRegister(cfg, s, c, e, seen);
    case Login(_, _) => assert Act(cfg, s, c, e, seen) == ActLogin(cfg, s, c, e, seen);
    case Refresh(_) => assert Act(cfg, s, c, e, seen) == ActRefresh(cfg, s, c, e, seen);
    case ChangePassword(_, _, _) => assert Act(cfg, s, c, e, seen) == ActChangePassword(cfg, s, c, e, seen);
    case DeleteAccount(_) => assert Act(cfg, s, c, e, seen) == ActDeleteAccount(s, c, e, seen);
    case Revoke(_) =>
    case Purge =>
    case GetUser(_) =>
    case ListSessions(_, _, _) =>
  }

  // ----- Dead digests ----------------------------------------------------

  /** A digest whose token identifier has been handed out and which has no row. */
  ghost predicate Dead(w: World, d: Digest) {
    d.token.jti in w.ids && d !in w.store.tokens
  }

  lemma DeadStaysDead(cfg: Config, ws: seq<World>, steps: seq<Step>, i: nat, d: Digest)
    requires Run(cfg, ws, steps) && i < |steps| && Dead(ws[i], d)
    ensures Dead(ws[i + 1], d)
  {
    assert Follows(cfg, ws, steps, i);
    ActFrame(cfg, ws[i].store, steps[i].call, steps[i].env, Look(ws[i].store, steps[i].call));
  }

  lemma {:induction false} DeadForever(cfg: Config, ws: seq<World>, steps: seq<Step>, i: nat, j: nat, d: Digest)
    requires Run(cfg, ws, steps) && i <= j < |ws| && Dead(ws[i], d)
    ensures Dead(ws[j], d)
  {
    if i < j {
      DeadForever(cfg, ws, steps, i, j - 1, d);
      DeadStaysDead(cfg, ws, steps, j - 1, d);
    }
  }

  ghost predicate Exchanges(cfg: Config, w: World, st: Step, token: RefreshToken) {
    st.call == Refresh(Signed(token)) && ReplyOf(cfg, w, st).Renewed?
  }

  /** Refresh hands out a pair exactly for an unexpired token with an unexpired row, when nothing fails. */
  lemma RefreshSucceedsExactly(cfg: Config, w: World, st: Step, token: RefreshToken)
    requires Inv(w) && Enabled(w, st) && st.call == Refresh(Signed(token))
    ensures var f := st.env.faults;
            Exchanges(cfg, w, st, token) <==>
              && !f.cancelled && !f.lookup && !f.remove && !f.sign && f.store.Fine? && !f.commit
              && st.env.clock.entry < token.exp
              && Hash(token) in w.store.tokens
              && st.env.clock.check <= w.store.tokens[Hash(token)].expiresAt
  {
    var s, e := w.store, st.env;
    assert Served(cfg, w, st) == ActRefresh(cfg, s, st.call, e, Look(s, st.call));
    var row := MintedRow(cfg, token.userId, e);
    forall other | other in s.tokens ensures other != row.digest && s.tokens[other].id != row.id {
      assert RowOk(w, other);
    }
    assert TokenKeysFree(DeleteByTokenHash(s, Hash(token)), row.id, row.digest);
  }

  lemma DeadIsRefused(cfg: Config, w: World, st: Step, token: RefreshToken)
    requires Dead(w, Hash(token)) && st.call == Refresh(Signed(token))
    ensures ReplyOf(cfg, w, st).Failed?
  {
  }

  lemma ExchangeKills(cfg: Config, w: World, st: Step, token: RefreshToken)
    requires Inv(w) && Enabled(w, st) && Exchanges(cfg, w, st, token)
    ensures Dead(Next(cfg, w, st), Hash(token))
  {
    IssueIsForVisibleUser(cfg, w, st);
    assert RowOk(w, Hash(token));
  }

  /** No refresh token is exchanged twice in a run. */
  lemma SingleUse(cfg: Config, ws: seq<World>, steps: seq<Step>, i: nat, j: nat, token: RefreshToken)
    requires Run(cfg, ws, steps) && i < j < |steps|
    requires Exchanges(cfg, ws[i], steps[i], token)
    ensures !Exchanges(cfg, ws[j], steps[j], token)
  {
    InvThroughout(cfg, ws, steps, i);
    assert Follows(cfg, ws, steps, i);
    ExchangeKills(cfg, ws[i], steps[i], token);
    DeadForever(cfg, ws, steps, i + 1, j, Hash(token));
    if steps[j].call == Refresh(Signed(token)) {
      DeadIsRefused(cfg, ws[j], steps[j], token);
    }
  }

  /** In every world of a run, two stored rows never belong to the same family. */
  lemma FamiliesAreSingleThroughout(cfg: Config, ws: seq<World>, steps: seq<Step>, i: nat, d: Digest, d': Digest)
    requires Run(cfg, ws, steps) && i < |ws|
    requires d in ws[i].store.tokens && d' in ws[i].store.tokens && d != d'
    ensures d in ws[i].root && d' in ws[i].root && ws[i].root[d] != ws[i].root[d']
  {
    InvThroughout(cfg, ws, steps, i);
    assert RowOk(ws[i], d) && RowOk(ws[i], d');
  }

  // ----- Account death ---------------------------------------------------

  ghost predicate HasNoRows(s: Store, u: Uuid) {
    forall d :: d in s.tokens ==> s.tokens[d].userId != u
  }

  lemma DeletedRowKept(cfg: Config, ws: seq<World>, steps: seq<Step>, i: nat, u: Uuid)
    requires Run(cfg, ws, steps) && i < |steps|
    requires u in ws[i].store.users && ws[i].store.users[u].deleted
    ensures u in ws[i + 1].store.users && ws[i + 1].store.users[u] == ws[i].store.users[u]
  {
    assert Follows(cfg, ws, steps, i);
    ActFrame(cfg, ws[i].store, steps[i].call, steps[i].env, Look(ws[i].store, steps[i].call));
  }

  lemma {:induction false} DeletedRowIsFrozen(cfg: Config, ws: seq<World>, steps: seq<Step>, i: nat, j: nat, u: Uuid)
    requires Run(cfg, ws, steps) && i <= j < |ws|
    requires u in ws[i].store.users && ws[i].store.users[u].deleted
    ensures u in ws[j].store.users && ws[j].store.users[u] == ws[i].store.users[u]
  {
    if i < j {
      DeletedRowIsFrozen(cfg, ws, steps, i, j - 1, u);
      DeletedRowKept(cfg, ws, steps, j - 1, u);
    }
  }

  /** On a world where the account is deleted, no call brings any of it back. */
  lemma NothingForTheDeleted(cfg: Config, w: World, st: Step, u: Uuid)
    requires Inv(w) && Enabled(w, st) && u in w.store.users && w.store.users[u].deleted
    ensures HasNoRows(w.store, u)
    ensures Issues(ReplyOf(cfg, w, st)) ==> ReplyOf(cfg, w, st).issued.refresh.userId != u
    ensures st.call == GetUser(Some(u)) ==> ReplyOf(cfg, w, st).Failed?
    ensures st.call.Login? && st.call.email == w.store.users[u].email ==> ReplyOf(cfg, w, st).Failed?
    ensures st.call.Register? && st.call.email == w.store.users[u].email ==> ReplyOf(cfg, w, st).Failed?
  {
    var s, c, e := w.store, st.call, st.env;
    forall d | d in s.tokens ensures s.tokens[d].userId != u { assert RowOk(w, d); }
    ActFrame(cfg, s, c, e, Look(s, c));
    if Issues(ReplyOf(cfg, w, st)) { IssueIsForVisibleUser(cfg, w, st); }
    if c.Login? { assert Served(cfg, w, st) == ActLogin(cfg, s, c, e, Look(s, c)); }
    if c.Register? {
      assert Served(cfg, w, st) == ActRegister(cfg, s, c, e, Look(s, c));
    }
  }

  /**
   After a successful deletion nothing later in the run signs that account in,
   renews one of its tokens, shows it, or registers its address again.
   */
  lemma DeletedAccountStaysDead(cfg: Config, ws: seq<World>, steps: seq<Step>, i: nat, j: nat, u: Uuid)
    requires Run(cfg, ws, steps) && i < j < |steps|
    requires steps[i].call == DeleteAccount(u) && ReplyOf(cfg, ws[i], steps[i]) == Reply.Done
    ensures u in ws[i].store.users
    ensures HasNoRows(ws[j].store, u)
    ensures var email := ws[i].store.users[u].email;
            var reply := ReplyOf(cfg, ws[j], steps[j]);
            && (Issues(reply) ==> reply.issued.refresh.userId != u)
            && (steps[j].call == GetUser(Some(u)) ==> reply.Failed?)
            && (steps[j].call.Login? && steps[j].call.email == email ==> reply.Failed?)
            && (steps[j].call.Register? && steps[j].call.email == email ==> reply.Failed?)
  {
    var s := ws[i].store;
    assert Served(cfg, ws[i], steps[i]) == ActDeleteAccount(s, steps[i].call, steps[i].env, Look(s, steps[i].call));
    assert Follows(cfg, ws, steps, i) && Follows(cfg, ws, steps, j);
    DeletedRowIsFrozen(cfg, ws, steps, i + 1, j, u);
    InvThroughout(cfg, ws, steps, j);
    NothingForTheDeleted(cfg, ws[j], steps[j], u);
  }

  // ----- Replay ----------------------------------------------------------

  ghost predicate OthersKept(s: Store, s': Store, u: Uuid) {
    && (forall d :: d in s.tokens && s.tokens[d].userId != u ==> d in s'.tokens && s'.tokens[d] == s.tokens[d])
    && (forall d :: d in s'.tokens && s'.tokens[d].userId != u ==> d in s.tokens)
  }

  /** What the reuse branch does: reached exactly by a valid token without a row. */
  lemma ReuseEndsEverySession(cfg: Config, w: World, st: Step, token: RefreshToken)
    requires st.call == Refresh(Signed(token)) && !st.env.faults.cancelled && !st.env.faults.lookup
    ensures ReplyOf(cfg, w, st) == Failed(RefreshTokenRevoked)
            <==> st.env.clock.entry < token.exp && Hash(token) !in w.store.tokens
    ensures ReplyOf(cfg, w, st) == Failed(RefreshTokenRevoked) && st.env.faults.revoke.Fine? ==>
              && HasNoRows(Next(cfg, w, st).store, token.userId)
              && OthersKept(w.store, Next(cfg, w, st).store, token.userId)
              && Next(cfg, w, st).store.users == w.store.users
  {
  }

  /**
   Once a valid token without a row is presented and the revocation succeeds, no
   token of that user whose identifier existed by then is ever renewed again.
   */
  lemma ReplayEndsEverything(cfg: Config, ws: seq<World>, steps: seq<Step>, i: nat, j: nat, replayed: RefreshToken,
                             earlier: RefreshToken)
    requires Run(cfg, ws, steps) && i < j < |steps|
    requires steps[i].call == Refresh(Signed(replayed)) && ReplyOf(cfg, ws[i], steps[i]) == Failed(RefreshTokenRevoked)
    requires steps[i].env.faults.revoke.Fine?
    requires earlier.userId == replayed.userId && earlier.jti in ws[i].ids
    ensures !Exchanges(cfg, ws[j], steps[j], earlier)
    ensures OthersKept(ws[i].store, ws[i + 1].store, replayed.userId)
  {
    assert Served(cfg, ws[i], steps[i]) == ActRefresh(cfg, ws[i].store, steps[i].call, steps[i].env,
                                                      Look(ws[i].store, steps[i].call));
    assert Follows(cfg, ws, steps, i);
    ReuseEndsEverySession(cfg, ws[i], steps[i], replayed);
    InvThroughout(cfg, ws, steps, i + 1);
    RowFact(ws[i + 1], Hash(earlier));
    DeadForever(cfg, ws, steps, i + 1, j, Hash(earlier));
    if steps[j].call == Refresh(Signed(earlier)) {
      DeadIsRefused(cfg, ws[j], steps[j], earlier);
    }
  }

  /**
   The alarm is about texts, not sessions: another spelling of a valid token,
   live or not, is refused as a replay and ends every session of the user.
   */
  lemma RespelledTokenEndsEverySession(cfg: Config, w: World, st: Step, token: RefreshToken)
    requires Inv(w) && st.call == Refresh(Signed(token)) && token.spelling != 0
    requires var f := st.env.faults; !f.cancelled && !f.lookup && f.revoke.Fine?
    ensures st.env.clock.entry < token.exp ==>
              ReplyOf(cfg, w, st) == Failed(RefreshTokenRevoked) && HasNoRows(Next(cfg, w, st).store, token.userId)
    ensures token.exp <= st.env.clock.entry ==>
              ReplyOf(cfg, w, st) == Failed(InvalidRefreshToken) && Next(cfg, w, st).store == w.store
  {
    RowFact(w, Hash(token));
    ReuseEndsEverySession(cfg, w, st, token);
  }

  /** Presenting a live session in any spelling raises the alarm exactly when it is not the one handed out. */
  lemma FalseAlarmExactly(cfg: Config, w: World, st: Step, token: RefreshToken)
    requires Inv(w) && st.call == Refresh(Signed(token)) && Hash(token.(spelling := 0)) in w.store.tokens
    requires st.env.clock.entry < token.exp && !st.env.faults.cancelled && !st.env.faults.lookup
    ensures ReplyOf(cfg, w, st) == Failed(RefreshTokenRevoked) <==> token.spelling != 0
  {
    RowFact(w, Hash(token));
    ReuseEndsEverySession(cfg, w, st, token);
    assert token.spelling == 0 ==> token.(spelling := 0) == token;
  }

  // ----- Password change -------------------------------------------------

  ghost predicate Changes(cfg: Config, w: World, st: Step, u: Uuid) {
    ChangesAccount(st.call, u) && !ReplyOf(cfg, w, st).Failed?
  }

  /** Exactly one account row and that account's token rows change. */
  lemma PasswordChangeEffect(cfg: Config, w: World, st: Step)
    requires Inv(w) && Enabled(w, st) && st.call.ChangePassword? && !ReplyOf(cfg, w, st).Failed?
    ensures var u, w' := st.call.userId, Next(cfg, w, st);
            && Visible(w.store, u) && |st.call.next| <= BCRYPT_MAX && ReplyOf(cfg, w, st).Renewed?
            && Matches(w.store.users[u].password, st.call.current)
            && w'.store.users == w.store.users[u := w.store.users[u].(password := PasswordHash(Stream(st.call.next)))]
            && (forall d ::
                  (d in w'.store.tokens && w'.store.tokens[d].userId == u)
                  <==> d == Hash(ReplyOf(cfg, w, st).issued.refresh))
            && OthersKept(w.store, w'.store, u)
            && Hash(ReplyOf(cfg, w, st).issued.refresh) !in w.store.tokens
  {
    var s, c, e := w.store, st.call, st.env;
    assert Served(cfg, w, st) == ActChangePassword(cfg, s, c, e, Look(s, c));
    var row := MintedRow(cfg, c.userId, e);
    RowFact(w, row.digest);
  }

  lemma AccountRowKeptByStep(cfg: Config, ws: seq<World>, steps: seq<Step>, i: nat, u: Uuid)
    requires Run(cfg, ws, steps) && i < |steps| && Visible(ws[i].store, u) && !Changes(cfg, ws[i], steps[i], u)
    ensures Visible(ws[i + 1].store, u) && ws[i + 1].store.users[u] == ws[i].store.users[u]
  {
    assert Follows(cfg, ws, steps, i);
    AccountRowKept(cfg, ws[i].store, steps[i].call, steps[i].env, Look(ws[i].store, steps[i].call), u);
  }

  lemma {:induction false} AccountRowKeptThroughout(cfg: Config, ws: seq<World>, steps: seq<Step>, i: nat, j: nat,
                                                    u: Uuid)
    requires Run(cfg, ws, steps) && i <= j < |ws| && Visible(ws[i].store, u)
    requires forall k :: i <= k < j ==> !Changes(cfg, ws[k], steps[k], u)
    ensures Visible(ws[j].store, u) && ws[j].store.users[u] == ws[i].store.users[u]
  {
    if i < j {
      AccountRowKeptThroughout(cfg, ws, steps, i, j - 1, u);
      AccountRowKeptByStep(cfg, ws, steps, j - 1, u);
    }
  }

  /** Login succeeds exactly on the stored password of the one visible account with the address. */
  lemma LoginSucceedsExactly(cfg: Config, w: World, st: Step, u: Uuid)
    requires Inv(w) && Enabled(w, st) && Visible(w.store, u)
    requires st.call.Login? && st.call.email == w.store.users[u].email
    ensures var f := st.env.faults;
            ReplyOf(cfg, w, st).SignedIn?
            <==> (&& !f.cancelled && !f.lookup && !f.sign && f.store.Fine?
                  && Matches(w.store.users[u].password, st.call.password))
    ensures ReplyOf(cfg, w, st).SignedIn? ==>
              ReplyOf(cfg, w, st).profile == Profile(u, w.store.users[u].email, w.store.users[u].name)
  {
    var s, c, e := w.store, st.call, st.env;
    assert Served(cfg, w, st) == ActLogin(cfg, s, c, e, Look(s, c));
    FoundByEmail(s, u);
    var row := MintedRow(cfg, u, e);
    forall other | other in s.tokens ensures other != row.digest && s.tokens[other].id != row.id {
      assert RowOk(w, other);
    }
  }

  lemma IssuedJtiIsNew(cfg: Config, w: World, st: Step)
    requires Enabled(w, st) && Issues(ReplyOf(cfg, w, st))
    ensures ReplyOf(cfg, w, st).issued.refresh.jti !in w.ids
  {
    ActFrame(cfg, w.store, st.call, st.env, Look(w.store, st.call));
  }

  /** A successful password change leaves no row for a token of the account handed out before. */
  lemma PasswordChangeKills(cfg: Config, w: World, st: Step, earlier: RefreshToken)
    requires Inv(w) && Enabled(w, st) && st.call.ChangePassword? && !ReplyOf(cfg, w, st).Failed?
    requires earlier.userId == st.call.userId && earlier.jti in w.ids
    ensures Dead(Next(cfg, w, st), Hash(earlier))
  {
    PasswordChangeEffect(cfg, w, st);
    IssuedJtiIsNew(cfg, w, st);
    if Hash(earlier) in Next(cfg, w, st).store.tokens {
      RowStaysOk(cfg, w, st, Hash(earlier));
    }
  }

  /** Until the next change or deletion, the account's row is the old one with the new password. */
  lemma NewPasswordStays(cfg: Config, ws: seq<World>, steps: seq<Step>, i: nat, j: nat)
    requires Run(cfg, ws, steps) && i < j < |ws|
    requires steps[i].call.ChangePassword? && !ReplyOf(cfg, ws[i], steps[i]).Failed?
    requires forall k :: i < k < j ==> !Changes(cfg, ws[k], steps[k], steps[i].call.userId)
    ensures var u := steps[i].call.userId;
            && Visible(ws[i].store, u) && Visible(ws[j].store, u)
            && ws[j].store.users[u] == ws[i].store.users[u].(password := PasswordHash(Stream(steps[i].call.next)))
  {
    InvThroughout(cfg, ws, steps, i);
    assert Follows(cfg, ws, steps, i);
    PasswordChangeEffect(cfg, ws[i], steps[i]);
    AccountRowKeptThroughout(cfg, ws, steps, i + 1, j, steps[i].call.userId);
  }

  /** After a successful password change, no token of the account handed out before is ever exchanged again. */
  lemma PasswordChangeCutsOff(cfg: Config, ws: seq<World>, steps: seq<Step>, i: nat, j: nat, earlier: RefreshToken)
    requires Run(cfg, ws, steps) && i < j < |steps|
    requires steps[i].call.ChangePassword? && !ReplyOf(cfg, ws[i], steps[i]).Failed?
    requires earlier.userId == steps[i].call.userId && earlier.jti in ws[i].ids
    ensures !Exchanges(cfg, ws[j], steps[j], earlier)
  {
    InvThroughout(cfg, ws, steps, i);
    assert Follows(cfg, ws, steps, i);
    PasswordChangeKills(cfg, ws[i], steps[i], earlier);
    DeadForever(cfg, ws, steps, i + 1, j, Hash(earlier));
    if steps[j].call == Refresh(Signed(earlier)) {
      DeadIsRefused(cfg, ws[j], steps[j], earlier);
    }
  }

  /** A password that bcrypt reads as it stands. */
  predicate Plain(p: Password) {
    NulFree(p) && |p| <= BCRYPT_MAX
  }

  lemma PlainStreams(p: Password, q: Password)
    ensures Plain(p) && Plain(q) ==> (Stream(p) == Stream(q) <==> p == q)
  {
    if Plain(p) && Plain(q) {
      StreamIsExact(p, q);
    }
  }

  /**
   Until the next change or deletion, a login that meets no fault succeeds exactly
   with a password of the same stream as the new one; between plain passwords that
   is the new password itself.
   */
  lemma NewPasswordLogsIn(cfg: Config, ws: seq<World>, steps: seq<Step>, i: nat, j: nat)
    requires Run(cfg, ws, steps) && i < j < |steps|
    requires steps[i].call.ChangePassword? && !ReplyOf(cfg, ws[i], steps[i]).Failed?
    requires forall k :: i < k < j ==> !Changes(cfg, ws[k], steps[k], steps[i].call.userId)
    requires var f := steps[j].env.faults; !f.cancelled && !f.lookup && !f.sign && f.store.Fine?
    ensures var u := steps[i].call.userId;
            && Visible(ws[i].store, u)
            && (steps[j].call.Login? && steps[j].call.email == ws[i].store.users[u].email ==>
                  (ReplyOf(cfg, ws[j], steps[j]).SignedIn?
                   <==> Stream(steps[j].call.password) == Stream(steps[i].call.next))
                  && (Plain(steps[j].call.password) && Plain(steps[i].call.next) ==>
                        (ReplyOf(cfg, ws[j], steps[j]).SignedIn? <==> steps[j].call.password == steps[i].call.next)))
  {
    var u := steps[i].call.userId;
    NewPasswordStays(cfg, ws, steps, i, j);
    InvThroughout(cfg, ws, steps, j);
    assert Follows(cfg, ws, steps, j);
    if steps[j].call.Login? && steps[j].call.email == ws[i].store.users[u].email {
      LoginSucceedsExactly(cfg, ws[j], steps[j], u);
      PlainStreams(steps[j].call.password, steps[i].call.next);
    }
  }

  /** The same holds of the password an account was registered with. */
  lemma RegisteredPasswordLogsIn(cfg: Config, ws: seq<World>, steps: seq<Step>, i: nat, j: nat)
    requires Run(cfg, ws, steps) && i < j < |steps|
    requires steps[i].call.Register? && ReplyOf(cfg, ws[i], steps[i]).SignedIn?
    requires forall k :: i < k < j ==> !Changes(cfg, ws[k], steps[k], steps[i].call.newId)
    requires steps[j].call.Login? && steps[j].call.email == steps[i].call.email
    requires var f := steps[j].env.faults; !f.cancelled && !f.lookup && !f.sign && f.store.Fine?
    ensures ReplyOf(cfg, ws[j], steps[j]).SignedIn?
            <==> Stream(steps[j].call.password) == Stream(steps[i].call.password)
    ensures Plain(steps[j].call.password) && Plain(steps[i].call.password) ==>
              (ReplyOf(cfg, ws[j], steps[j]).SignedIn? <==> steps[j].call.password == steps[i].call.password)
    ensures ReplyOf(cfg, ws[j], steps[j]).SignedIn? ==>
              ReplyOf(cfg, ws[j], steps[j]).profile
                  == Profile(steps[i].call.newId, steps[i].call.email, steps[i].call.name)
  {
    InvThroughout(cfg, ws, steps, i);
    assert Follows(cfg, ws, steps, i) && Follows(cfg, ws, steps, j);
    RegisterDecides(cfg, ws[i], steps[i]);
    AccountRowKeptThroughout(cfg, ws, steps, i + 1, j, steps[i].call.newId);
    InvThroughout(cfg, ws, steps, j);
    LoginSucceedsExactly(cfg, ws[j], steps[j], steps[i].call.newId);
    PlainStreams(steps[j].call.password, steps[i].call.password);
  }

  /** A registration and then a login, on empty tables and without faults. */
  lemma RegisterThenLogin(cfg: Config, stored: Password, presented: Password)
    ensures var register := Step(Register(ADDRESS, stored, "Alice", 0), At(0, 1));
            var login := Step(Login(ADDRESS, presented), At(0, 2));
            && (ReplyOf(cfg, EMPTY, register).SignedIn? <==> |stored| <= BCRYPT_MAX)
            && (|stored| <= BCRYPT_MAX ==>
                  (ReplyOf(cfg, Next(cfg, EMPTY, register), login).SignedIn? <==> Stream(presented) == Stream(stored)))
  {
    var register := Step(Register(ADDRESS, stored, "Alice", 0), At(0, 1));
    var login := Step(Login(ADDRESS, presented), At(0, 2));
    EmptyTablesAreFine();
    RegisterDecides(cfg, EMPTY, register);
    if |stored| <= BCRYPT_MAX {
      InvIsKept(cfg, EMPTY, register);
      LoginSucceedsExactly(cfg, Next(cfg, EMPTY, register), login, 0);
    }
  }

  /** The letter e with an acute accent, so many times: two bytes for one character. */
  function Accents(n: nat): (p: Password)
    ensures |p| == 2 * n
  {
    seq(2 * n, i => if i % 2 == 0 then 0xc3 else 0xa9)
  }

  lemma RegisterIsDecided(cfg: Config, w: World, st: Step)
    requires st.call.Register?
    ensures ReplyOf(cfg, w, st).SignedIn? || ReplyOf(cfg, w, st).Failed?
  {
    assert Served(cfg, w, st) == ActRegister(cfg, w.store, st.call, st.env, Look(w.store, st.call));
  }

  /**
   Passwords of 36 and of 37 characters pass a limit of 72 characters. The longer
   one cannot be registered, and yet it logs in where the shorter one was.
   */
  lemma OverlongPasswordLogsIn(cfg: Config)
    ensures var register, w := Step(Register(ADDRESS, Accents(36), "Alice", 0), At(0, 1)), EMPTY;
            && ReplyOf(cfg, w, register).SignedIn?
            && ReplyOf(cfg, w, Step(Register(ADDRESS, Accents(37), "Alice", 0), At(0, 1))).Failed?
            && ReplyOf(cfg, Next(cfg, w, register), Step(Login(ADDRESS, Accents(37)), At(0, 2))).SignedIn?
  {
    OverlongIsCut(Accents(36));
    OverlongIsCut(Accents(37));
    assert Accents(37)[..BCRYPT_MAX] == Accents(36)[..BCRYPT_MAX];
    RegisterThenLogin(cfg, Accents(36), Accents(37));
    RegisterThenLogin(cfg, Accents(37), Accents(37));
    RegisterIsDecided(cfg, EMPTY, Step(Register(ADDRESS, Accents(37), "Alice", 0), At(0, 1)));
  }

  /** A password written twice around a NUL byte logs in where the password itself was registered. */
  lemma RepeatedPasswordLogsIn(cfg: Config, p: Password)
    requires |p| <= BCRYPT_MAX
    ensures var register := Step(Register(ADDRESS, p, "Alice", 0), At(0, 1));
            && p + [0] + p != p
            && ReplyOf(cfg, EMPTY, register).SignedIn?
            && ReplyOf(cfg, Next(cfg, EMPTY, register), Step(Login(ADDRESS, p + [0] + p), At(0, 2))).SignedIn?
  {
    RepeatedIsTheSame(p);
    RegisterThenLogin(cfg, p, p + [0] + p);
    assert |p + [0] + p| > |p|;
  }

  lemma IssuedRowAndToken(cfg: Config, w: World, st: Step)
    requires Issues(ReplyOf(cfg, w, st))
    ensures var token, tokens := ReplyOf(cfg, w, st).issued.refresh, Next(cfg, w, st).store.tokens;
            && token.exp == NumericDate(st.env.clock.mint + cfg.jwtTtl)
            && Hash(token) in tokens && tokens[Hash(token)].expiresAt == st.env.clock.store + cfg.rowTtl
  {
    ActFrame(cfg, w.store, st.call, st.env, Look(w.store, st.call));
  }

  /**
   A refresh token that was handed out can be exchanged at any time before its
   expiry, unless something retired its row, when the row lives at least as long
   as the signed token.
   */
  lemma IssuedTokenIsRenewable(cfg: Config, ws: seq<World>, steps: seq<Step>, i: nat, j: nat, token: RefreshToken)
    requires cfg.jwtTtl <= cfg.rowTtl && Run(cfg, ws, steps) && i < j < |steps|
    requires Issues(ReplyOf(cfg, ws[i], steps[i])) && token == ReplyOf(cfg, ws[i], steps[i]).issued.refresh
    requires forall k :: i < k < j && Hash(token) in ws[k].store.tokens ==> !Retires(cfg, ws[k], steps[k], Hash(token))
    requires steps[j].call == Refresh(Signed(token)) && steps[j].env.clock.check < token.exp
    requires var f := steps[j].env.faults;
             !f.cancelled && !f.lookup && !f.remove && !f.sign && f.store.Fine? && !f.commit
    ensures Exchanges(cfg, ws[j], steps[j], token)
  {
    assert Follows(cfg, ws, steps, i) && Follows(cfg, ws, steps, j);
    IssuedRowAndToken(cfg, ws[i], steps[i]);
    SessionSurvives(cfg, ws, steps, i + 1, j, Hash(token));
    InvThroughout(cfg, ws, steps, j);
    RefreshSucceedsExactly(cfg, ws[j], steps[j], token);
  }

  // ----- Profiles and sweeps ---------------------------------------------

  lemma ProfileKept(cfg: Config, ws: seq<World>, steps: seq<Step>, i: nat, u: Uuid)
    requires Run(cfg, ws, steps) && i < |steps| && u in ws[i].store.users
    ensures u in ws[i + 1].store.users
    ensures ws[i + 1].store.users[u].email == ws[i].store.users[u].email
            && ws[i + 1].store.users[u].name == ws[i].store.users[u].name
  {
    assert Follows(cfg, ws, steps, i);
    ActFrame(cfg, ws[i].store, steps[i].call, steps[i].env, Look(ws[i].store, steps[i].call));
  }

  lemma {:induction false} ProfileKeptThroughout(cfg: Config, ws: seq<World>, steps: seq<Step>, i: nat, j: nat, u: Uuid)
    requires Run(cfg, ws, steps) && i <= j < |ws| && u in ws[i].store.users
    ensures u in ws[j].store.users
    ensures ws[j].store.users[u].email == ws[i].store.users[u].email
            && ws[j].store.users[u].name == ws[i].store.users[u].name
  {
    if i < j {
      ProfileKeptThroughout(cfg, ws, steps, i, j - 1, u);
      ProfileKept(cfg, ws, steps, j - 1, u);
    }
  }

  /** An account is shown with the profile it was registered with, at any later time, until it is deleted. */
  lemma RegisteredProfileIsShown(cfg: Config, ws: seq<World>, steps: seq<Step>, i: nat, j: nat)
    requires Run(cfg, ws, steps) && i < j < |steps|
    requires steps[i].call.Register? && ReplyOf(cfg, ws[i], steps[i]).SignedIn?
    requires steps[j].call == GetUser(Some(steps[i].call.newId)) && !steps[j].env.faults.cancelled
             && !steps[j].env.faults.lookup
    ensures var c := steps[i].call;
            ReplyOf(cfg, ws[j], steps[j])
            == if Visible(ws[j].store, c.newId) then Found(Profile(c.newId, c.email, c.name)) else Failed(UserNotFound)
  {
    InvThroughout(cfg, ws, steps, i);
    assert Follows(cfg, ws, steps, i);
    RegisterDecides(cfg, ws[i], steps[i]);
    ProfileKeptThroughout(cfg, ws, steps, i + 1, j, steps[i].call.newId);
  }

  /** The number a sweep reports is the number of rows the table lost, and every row it leaves is still live. */
  lemma SweepAccounts(cfg: Config, w: World, st: Step)
    requires st.call.Purge? && ReplyOf(cfg, w, st).Purged?
    ensures |Next(cfg, w, st).store.tokens| + ReplyOf(cfg, w, st).count == |w.store.tokens|
    ensures forall d ::
              d in Next(cfg, w, st).store.tokens
              <==> (d in w.store.tokens && st.env.clock.entry <= w.store.tokens[d].expiresAt)
  {
    var tokens, gone := w.store.tokens, ExpiredAt(w.store, st.env.clock.entry);
    assert (tokens - gone).Keys == tokens.Keys - gone && gone <= tokens.Keys;
    assert |tokens.Keys| == |tokens.Keys - gone| + |gone|;
  }

  // ----- The session listing ---------------------------------------------

  /** The reply to a request for one page. */
  ghost function PageReply(cfg: Config, s: Store, u: Uuid, cookie: Option<Presented>, e: Env, limit: int,
                           page: int): Reply {
    Serve(cfg, s, ListSessions(u, cookie, Pagination(page, limit)), e).reply
  }

  ghost predicate CanList(e: Env) {
    !e.faults.cancelled && !e.faults.lookup
  }

  /** What the replies to requests for pages 1 to n show, one after the other. */
  ghost function Shown(cfg: Config, s: Store, u: Uuid, cookie: Option<Presented>, e: Env, limit: int,
                       n: nat): seq<Session>
    requires CanList(e)
  {
    if n == 0 then []
    else Shown(cfg, s, u, cookie, e, limit, n - 1) + PageReply(cfg, s, u, cookie, e, limit, n).sessions
  }

  lemma OnePage(cfg: Config, s: Store, u: Uuid, cookie: Option<Presented>, e: Env, limit: int, page: int)
    requires CanList(e)
    ensures var p, reply := Normalized(Pagination(page, limit)), PageReply(cfg, s, u, cookie, e, limit, page);
            && reply.sessions == SessionsOf(ListActive(s.tokens, u, e.clock.entry, p.limit, Offset(p)),
                                            CurrentHash(cookie))
            && reply.page == p.page && reply.limit == p.limit
            && reply.total == |ActiveRows(s.tokens, u, e.clock.entry)|
  {
  }

  lemma SessionsConcat(a: seq<TokenRow>, b: seq<TokenRow>, current: Option<Digest>)
    ensures SessionsOf(a + b, current) == SessionsOf(a, current) + SessionsOf(b, current)
  {
  }

  lemma {:induction false} ShownArePages(cfg: Config, s: Store, u: Uuid, cookie: Option<Presented>, e: Env,
                                         limit: int, n: nat)
    requires CanList(e)
    ensures Shown(cfg, s, u, cookie, e, limit, n)
            == SessionsOf(Pages(s.tokens, u, e.clock.entry, limit, n), CurrentHash(cookie))
  {
    if n > 0 {
      ShownArePages(cfg, s, u, cookie, e, limit, n - 1);
      OnePage(cfg, s, u, cookie, e, limit, n);
      var p := Normalized(Pagination(n, limit));
      SessionsConcat(Pages(s.tokens, u, e.clock.entry, limit, n - 1),
                     ListActive(s.tokens, u, e.clock.entry, p.limit, Offset(p)), CurrentHash(cookie));
    }
  }

  lemma ActiveRowsAreDistinct(w: World, u: Uuid, now: Instant)
    requires Inv(w)
    ensures DistinctIds(ActiveRows(w.store.tokens, u, now))
    ensures var rows := ActiveRows(w.store.tokens, u, now);
            forall a, b :: a in rows && b in rows && a.digest == b.digest ==> a == b
  {
  }

  /**
   In every world of a run, the pages of the listing, asked for until they cover
   the total, show each active session of the user once, newest first; every
   page reports that total; and at most one session of them all is current.
   */
  lemma SessionPagesPartition(cfg: Config, ws: seq<World>, steps: seq<Step>, i: nat, u: Uuid, cookie: Option<Presented>,
                              e: Env, limit: int, n: nat) returns (rows: seq<TokenRow>)
    requires Run(cfg, ws, steps) && i < |ws| && CanList(e)
    requires 1 <= limit <= MAX_LIMIT && PageReply(cfg, ws[i].store, u, cookie, e, limit, 1).total <= n * limit < TWO_63
    ensures forall r :: r in rows <==> r in ActiveRows(ws[i].store.tokens, u, e.clock.entry)
    ensures NewestFirst(rows)
    ensures Shown(cfg, ws[i].store, u, cookie, e, limit, n) == SessionsOf(rows, CurrentHash(cookie))
    ensures forall k :: PageReply(cfg, ws[i].store, u, cookie, e, limit, k).total == |rows|
    ensures forall a, b :: 0 <= a < b < |rows| ==> rows[a].digest != rows[b].digest
  {
    var now := e.clock.entry;
    InvThroughout(cfg, ws, steps, i);
    ActiveRowsAreDistinct(ws[i], u, now);
    PagesPartition(ws[i].store.tokens, u, now, limit, n);
    ShownArePages(cfg, ws[i].store, u, cookie, e, limit, n);
    rows := Pages(ws[i].store.tokens, u, now, limit, n);
    forall a, b | 0 <= a < b < |rows| ensures rows[a].digest != rows[b].digest {
      assert rows[a] in rows && rows[b] in rows && Newer(rows[a], rows[b]);
    }
  }

  /** The digests of the user's rows that have not expired, by their columns. */
  ghost function Unexpired(tokens: map<Digest, TokenRow>, u: Uuid, now: Instant): set<Digest> {
    set d | d in tokens && tokens[d].userId == u && tokens[d].expiresAt > now
  }

  lemma {:induction false} SameSize(tokens: map<Digest, TokenRow>, digests: set<Digest>)
    requires forall d :: d in digests ==> d in tokens && tokens[d].digest == d
    ensures |set d | d in digests :: tokens[d]| == |digests|
  {
    if digests != {} {
      var d :| d in digests;
      var rest := digests - {d};
      SameSize(tokens, rest);
      assert (set x | x in digests :: tokens[x]) == (set x | x in rest :: tokens[x]) + {tokens[d]};
    }
  }

  /** Rows sit under their own digest, so there are as many of them as digests. */
  lemma OneRowPerDigest(w: World, u: Uuid, now: Instant)
    requires Inv(w)
    ensures |ActiveRows(w.store.tokens, u, now)| == |Unexpired(w.store.tokens, u, now)|
    ensures forall r :: r in ActiveRows(w.store.tokens, u, now)
                        <==> r.digest in Unexpired(w.store.tokens, u, now) && w.store.tokens[r.digest] == r
  {
    var tokens, digests := w.store.tokens, Unexpired(w.store.tokens, u, now);
    forall d | d in tokens ensures tokens[d].digest == d {
      RowFact(w, d);
    }
    assert ActiveRows(tokens, u, now) == set d | d in digests :: tokens[d];
    SameSize(tokens, digests);
  }

  /** A session shows the columns of its row, and is current if the cookie is the token of the row. */
  ghost predicate Shows(s: Session, tokens: map<Digest, TokenRow>, d: Digest, cookie: Option<Presented>)
    requires d in tokens
  {
    && s.id == tokens[d].id && s.createdAt == tokens[d].createdAt && s.expiresAt == tokens[d].expiresAt
    && (s.current <==> cookie == Some(Signed(d.token)))
  }

  lemma RowShows(w: World, r: TokenRow, d: Digest, cookie: Option<Presented>)
    requires Inv(w) && d in w.store.tokens && w.store.tokens[d] == r
    ensures Shows(SessionOf(r, CurrentHash(cookie)), w.store.tokens, d, cookie)
  {
    RowFact(w, d);
  }

  lemma ShownAreRows(w: World, u: Uuid, now: Instant, rows: seq<TokenRow>, cookie: Option<Presented>,
                     shown: seq<Session>)
    requires Inv(w) && shown == SessionsOf(rows, CurrentHash(cookie))
    requires forall r :: r in rows <==> r.digest in Unexpired(w.store.tokens, u, now) && w.store.tokens[r.digest] == r
    ensures forall s :: s in shown <==>
              exists d :: d in Unexpired(w.store.tokens, u, now) && Shows(s, w.store.tokens, d, cookie)
  {
    var tokens := w.store.tokens;
    forall s | s in shown ensures exists d :: d in Unexpired(tokens, u, now) && Shows(s, tokens, d, cookie) {
      var a :| 0 <= a < |shown| && shown[a] == s;
      assert rows[a] in rows;
      RowShows(w, rows[a], rows[a].digest, cookie);
    }
    forall s, d | d in Unexpired(tokens, u, now) && Shows(s, tokens, d, cookie) ensures s in shown {
      RowFact(w, d);
      assert tokens[d] in rows;
      var a :| 0 <= a < |rows| && rows[a] == tokens[d];
      RowShows(w, rows[a], d, cookie);
      assert shown[a] == s;
    }
  }

  lemma OrderShows(rows: seq<TokenRow>, current: Option<Digest>)
    requires NewestFirst(rows)
    ensures var shown := SessionsOf(rows, current);
            forall a, b :: 0 <= a < b < |shown| ==>
              || shown[a].createdAt > shown[b].createdAt
              || (shown[a].createdAt == shown[b].createdAt && shown[a].id > shown[b].id)
  {
  }

  /**
   In every world of a run, a session is listed to the user, on pages that cover the
   total, if and only if it shows the columns of a row of that user that has not
   expired; it is listed once, and the total of every page is the number of those rows.
   */
  lemma ListedExactly(cfg: Config, ws: seq<World>, steps: seq<Step>, i: nat, u: Uuid, cookie: Option<Presented>,
                      e: Env, limit: int, n: nat)
    requires Run(cfg, ws, steps) && i < |ws| && CanList(e)
    requires 1 <= limit <= 100 && |Unexpired(ws[i].store.tokens, u, e.clock.entry)| <= n * limit < 0x8000_0000_0000_0000
    ensures var tokens, shown := ws[i].store.tokens, Shown(cfg, ws[i].store, u, cookie, e, limit, n);
            && (forall s :: s in shown <==>
                  exists d :: d in tokens && tokens[d].userId == u && tokens[d].expiresAt > e.clock.entry
                              && Shows(s, tokens, d, cookie))
            && |shown| == |Unexpired(tokens, u, e.clock.entry)|
            && (forall a, b :: 0 <= a < b < |shown| ==>
                  || shown[a].createdAt > shown[b].createdAt
                  || (shown[a].createdAt == shown[b].createdAt && shown[a].id > shown[b].id))
    ensures forall k :: PageReply(cfg, ws[i].store, u, cookie, e, limit, k).total
                        == |Unexpired(ws[i].store.tokens, u, e.clock.entry)|
  {
    var tokens, shown := ws[i].store.tokens, Shown(cfg, ws[i].store, u, cookie, e, limit, n);
    InvThroughout(cfg, ws, steps, i);
    OneRowPerDigest(ws[i], u, e.clock.entry);
    OnePage(cfg, ws[i].store, u, cookie, e, limit, 1);
    var rows := SessionPagesPartition(cfg, ws, steps, i, u, cookie, e, limit, n);
    ShownAreRows(ws[i], u, e.clock.entry, rows, cookie, shown);
    OrderShows(rows, CurrentHash(cookie));
  }

  ghost predicate CurrentAt(sessions: seq<Session>, a: nat) {
    a < |sessions| && sessions[a].current
  }

  /** Some listed row has the digest exactly when the table holds it as an active row of the user. */
  lemma ListedExactlyWhenActive(w: World, u: Uuid, now: Instant, rows: seq<TokenRow>, d: Digest)
    requires Inv(w) && forall r :: r in rows <==> r in ActiveRows(w.store.tokens, u, now)
    ensures (exists r :: r in rows && r.digest == d) <==> d in w.store.tokens && Active(w.store.tokens[d], u, now)
  {
    RowFact(w, d);
    if d in w.store.tokens && Active(w.store.tokens[d], u, now) {
      assert w.store.tokens[d] in rows;
    }
    if r :| r in rows && r.digest == d {
      var d' :| d' in w.store.tokens && w.store.tokens[d'] == r && Active(r, u, now);
      RowFact(w, d');
    }
  }

  lemma CurrentMeansDigest(rows: seq<TokenRow>, d: Digest, sessions: seq<Session>)
    requires sessions == SessionsOf(rows, Some(d))
    ensures forall a: nat :: CurrentAt(sessions, a) <==> a < |rows| && rows[a].digest == d
    ensures (exists a: nat :: CurrentAt(sessions, a)) <==> exists r :: r in rows && r.digest == d
  {
    if r :| r in rows && r.digest == d {
      var a :| 0 <= a < |rows| && rows[a] == r;
      assert CurrentAt(sessions, a);
    }
  }

  /**
   At most one session of all pages is marked current: the caller's own, listed
   exactly when its row is an active one of the user.
   */
  lemma CurrentIsTheCallers(cfg: Config, ws: seq<World>, steps: seq<Step>, i: nat, u: Uuid, token: RefreshToken,
                            e: Env, limit: int, n: nat)
    requires Run(cfg, ws, steps) && i < |ws| && CanList(e)
    requires 1 <= limit <= MAX_LIMIT
    requires PageReply(cfg, ws[i].store, u, Some(Signed(token)), e, limit, 1).total <= n * limit < TWO_63
    ensures var shown := Shown(cfg, ws[i].store, u, Some(Signed(token)), e, limit, n);
            && (forall a: nat, b: nat :: CurrentAt(shown, a) && CurrentAt(shown, b) ==> a == b)
            && ((exists a: nat :: CurrentAt(shown, a))
                <==> Hash(token) in ws[i].store.tokens && Active(ws[i].store.tokens[Hash(token)], u, e.clock.entry))
  {
    var rows := SessionPagesPartition(cfg, ws, steps, i, u, Some(Signed(token)), e, limit, n);
    InvThroughout(cfg, ws, steps, i);
    ListedExactlyWhenActive(ws[i], u, e.clock.entry, rows, Hash(token));
    CurrentMeansDigest(rows, Hash(token), Shown(cfg, ws[i].store, u, Some(Signed(token)), e, limit, n));
  }
}
