/**
 Interleaved runs: any number of calls in flight, each split at the point where
 its read outside the transaction has returned and its atomic change has not yet
 been made. The clock readings of a call come in order, the first before its read;
 they may fall anywhere between the events of other calls, so that a call may read
 or change the tables long after its clock. Identifiers never repeat; failures are
 unconstrained.
 */
module Interleaving {
  import opened Wrappers
  import opened Entities
  import opened Credentials
  import opened Listing
  import opened Protocol
  import opened Frames

  /** A call in flight: when it entered, what it read, and at which event it read it. */
  datatype Pending = Pending(call: Call, at: Instant, seen: Seen, begun: nat)

  /** The time of a world is the latest reading so far. */
  datatype World = World(store: Store, now: Instant, ids: set<Uuid>, pending: map<nat, Pending>)

  datatype Event = Begin(id: nat, call: Call, at: Instant) | End(id: nat, env: Env)

  ghost predicate Allowed(w: World, ev: Event) {
    match ev
    case Begin(id, _, _) => id !in w.pending
    case End(id, env) =>
      && id in w.pending && env.clock.entry == w.pending[id].at && Ticks(env.clock)
      && env.jti !in w.ids && env.rowId !in w.ids
  }

  /** What ending the pending call does. */
  ghost function Ended(cfg: Config, w: World, ev: Event): Effect
    requires ev.End? && ev.id in w.pending
  {
    Act(cfg, w.store, w.pending[ev.id].call, ev.env, w.pending[ev.id].seen)
  }

  function Later(a: Instant, b: Instant): Instant {
    if a < b then b else a
  }

  ghost function After(cfg: Config, w: World, ev: Event, index: nat): World
    requires Allowed(w, ev)
  {
    match ev
    case Begin(id, call, at) =>
      w.(now := Later(w.now, at), pending := w.pending[id := Pending(call, at, Look(w.store, call), index)])
    case End(id, env) =>
      World(Ended(cfg, w, ev).store, Later(w.now, env.clock.created), w.ids + {env.jti, env.rowId}, w.pending - {id})
  }

  /** Rows sit under their digest, belong to its user, and use identifiers already handed out. */
  ghost predicate RowsOld(w: World) {
    forall d :: d in w.store.tokens ==>
      && w.store.tokens[d].digest == d && w.store.tokens[d].userId == d.token.userId
      && d.token.jti in w.ids && w.store.tokens[d].id in w.ids
  }

  /** Event i is allowed and leads from ws[i] to ws[i + 1]. */
  ghost predicate Follows(cfg: Config, ws: seq<World>, evs: seq<Event>, i: nat)
    requires i < |evs| && |ws| == |evs| + 1
  {
    Allowed(ws[i], evs[i]) && ws[i + 1] == After(cfg, ws[i], evs[i], i)
  }

  ghost predicate Trace(cfg: Config, ws: seq<World>, evs: seq<Event>) {
    && |ws| == |evs| + 1
    && ws[0].pending == map[] && RowsOld(ws[0])
    && forall i :: 0 <= i < |evs| ==> Follows(cfg, ws, evs, i)
  }

  lemma RowsStayOld(cfg: Config, ws: seq<World>, evs: seq<Event>, i: nat)
    requires Trace(cfg, ws, evs) && i < |evs| && RowsOld(ws[i])
    ensures RowsOld(ws[i + 1])
  {
    var w, ev := ws[i], evs[i];
    assert Follows(cfg, ws, evs, i);
    if ev.End? {
      ActFrame(cfg, w.store, w.pending[ev.id].call, ev.env, w.pending[ev.id].seen);
    }
  }

  lemma {:induction false} RowsOldThroughout(cfg: Config, ws: seq<World>, evs: seq<Event>, i: nat)
    requires Trace(cfg, ws, evs) && i < |ws|
    ensures RowsOld(ws[i])
  {
    if i > 0 {
      RowsOldThroughout(cfg, ws, evs, i - 1);
      RowsStayOld(cfg, ws, evs, i - 1);
    }
  }

  lemma {:induction false} IdsGrow(cfg: Config, ws: seq<World>, evs: seq<Event>, i: nat, j: nat)
    requires Trace(cfg, ws, evs) && i <= j < |ws|
    ensures ws[i].ids <= ws[j].ids
  {
    if i < j {
      IdsGrow(cfg, ws, evs, i, j - 1);
      assert Follows(cfg, ws, evs, j - 1);
    }
  }

  // ----- No resurrection -------------------------------------------------

  lemma AbsentStaysAbsent(cfg: Config, ws: seq<World>, evs: seq<Event>, i: nat, d: Digest)
    requires Trace(cfg, ws, evs) && i < |evs| && d.token.jti in ws[i].ids && d !in ws[i].store.tokens
    ensures d.token.jti in ws[i + 1].ids && d !in ws[i + 1].store.tokens
  {
    var w, ev := ws[i], evs[i];
    assert Follows(cfg, ws, evs, i);
    if ev.End? {
      ActFrame(cfg, w.store, w.pending[ev.id].call, ev.env, w.pending[ev.id].seen);
    }
  }

  lemma {:induction false} AbsentForever(cfg: Config, ws: seq<World>, evs: seq<Event>, i: nat, j: nat, d: Digest)
    requires Trace(cfg, ws, evs) && i <= j < |ws|
    requires d.token.jti in ws[i].ids && d !in ws[i].store.tokens
    ensures d.token.jti in ws[j].ids && d !in ws[j].store.tokens
  {
    if i < j {
      AbsentForever(cfg, ws, evs, i, j - 1, d);
      AbsentStaysAbsent(cfg, ws, evs, j - 1, d);
    }
  }

  /** A row that an event removed never comes back, however the calls overlap. */
  lemma RemovalIsFinal(cfg: Config, ws: seq<World>, evs: seq<Event>, i: nat, j: nat, d: Digest)
    requires Trace(cfg, ws, evs) && i < j < |ws|
    requires d in ws[i].store.tokens && d !in ws[i + 1].store.tokens
    ensures d !in ws[j].store.tokens
  {
    RowsOldThroughout(cfg, ws, evs, i);
    IdsGrow(cfg, ws, evs, i, i + 1);
    AbsentForever(cfg, ws, evs, i + 1, j, d);
  }

  /** A pending call carries what its read saw in the world it began in. */
  lemma {:induction false} SeenWhenBegun(cfg: Config, ws: seq<World>, evs: seq<Event>, j: nat, id: nat)
    requires Trace(cfg, ws, evs) && j < |ws| && id in ws[j].pending
    ensures var p := ws[j].pending[id];
            p.begun < j && evs[p.begun] == Begin(id, p.call, p.at) && p.seen == Look(ws[p.begun].store, p.call)
  {
    if j > 0 {
      assert Follows(cfg, ws, evs, j - 1);
      if id in ws[j - 1].pending && ws[j - 1].pending[id] == ws[j].pending[id] {
        SeenWhenBegun(cfg, ws, evs, j - 1, id);
      }
    }
  }

  ghost predicate EndsRefresh(ws: seq<World>, evs: seq<Event>, m: nat, token: RefreshToken)
    requires |ws| == |evs| + 1
  {
    && m < |evs| && evs[m].End? && evs[m].id in ws[m].pending
    && ws[m].pending[evs[m].id].call == Refresh(Signed(token))
  }

  ghost predicate Quiet(f: Faults) {
    !f.cancelled && !f.lookup && !f.remove && !f.sign && f.store.Fine? && !f.commit
  }

  /** Given what it saw, a rotation succeeds on any table the fresh identifiers do not clash with. */
  lemma RotationIgnoresTheTable(cfg: Config, s: Store, token: RefreshToken, e: Env, seen: Seen)
    requires forall d :: d in s.tokens ==> d.token.jti != e.jti && s.tokens[d].id != e.rowId
    ensures Act(cfg, s, Refresh(Signed(token)), e, seen).reply.Renewed? <==>
              && Quiet(e.faults) && e.clock.entry < token.exp
              && seen.SeenRow? && seen.row.Some? && e.clock.check <= seen.row.value.expiresAt
  {
    var c := Refresh(Signed(token));
    var row := MintedRow(cfg, token.userId, e);
    assert Act(cfg, s, c, e, seen) == ActRefresh(cfg, s, c, e, seen);
    assert TokenKeysFree(DeleteByTokenHash(s, Hash(token)), row.id, row.digest);
  }

  /**
   A refresh is decided by its read: it returns a pair exactly when nothing
   fails, the token is valid and the row was there, unexpired, in the world the
   call began in. What other calls did since does not matter.
   */
  lemma RefreshIsDecidedByItsRead(cfg: Config, ws: seq<World>, evs: seq<Event>, m: nat, token: RefreshToken)
    requires Trace(cfg, ws, evs) && EndsRefresh(ws, evs, m, token)
    ensures var p, e := ws[m].pending[evs[m].id], evs[m].env;
            && p.begun < m
            && (Ended(cfg, ws[m], evs[m]).reply.Renewed? <==>
                  && Quiet(e.faults) && e.clock.entry < token.exp
                  && Hash(token) in ws[p.begun].store.tokens
                  && e.clock.check <= ws[p.begun].store.tokens[Hash(token)].expiresAt)
  {
    var p, e := ws[m].pending[evs[m].id], evs[m].env;
    SeenWhenBegun(cfg, ws, evs, m, evs[m].id);
    RowsOldThroughout(cfg, ws, evs, m);
    assert Follows(cfg, ws, evs, m);
    RotationIgnoresTheTable(cfg, ws[m].store, token, e, p.seen);
  }

  /** A refresh that starts after the row's removal committed never returns a pair. */
  lemma LateRefreshIsRefused(cfg: Config, ws: seq<World>, evs: seq<Event>, i: nat, m: nat, token: RefreshToken)
    requires Trace(cfg, ws, evs) && i < m && EndsRefresh(ws, evs, m, token)
    requires Hash(token) in ws[i].store.tokens && Hash(token) !in ws[i + 1].store.tokens
    requires i < ws[m].pending[evs[m].id].begun
    ensures Ended(cfg, ws[m], evs[m]).reply.Failed?
  {
    var p := ws[m].pending[evs[m].id];
    SeenWhenBegun(cfg, ws, evs, m, evs[m].id);
    RemovalIsFinal(cfg, ws, evs, i, p.begun, Hash(token));
    assert p.seen == SeenRow(None);
    assert Ended(cfg, ws[m], evs[m]) == ActRefresh(cfg, ws[m].store, p.call, evs[m].env, p.seen);
  }

  // ----- Single use needs calls that do not overlap ----------------------

  lemma RotationRemoves(cfg: Config, s: Store, token: RefreshToken, e: Env, seen: Seen)
    requires Act(cfg, s, Refresh(Signed(token)), e, seen).reply.Renewed? && token.jti != e.jti
    ensures Hash(token) !in Act(cfg, s, Refresh(Signed(token)), e, seen).store.tokens
  {
  }

  /**
   Whatever removed the row (a rotation, a deletion, a password change, a replay,
   a logout or a sweep): once it is gone, a refresh of that token that meets no
   fault succeeds exactly when it had read the live row before the removal
   committed.
   */
  lemma RenewedExactlyByOverlap(cfg: Config, ws: seq<World>, evs: seq<Event>, i: nat, m: nat, token: RefreshToken)
    requires Trace(cfg, ws, evs) && i < m && EndsRefresh(ws, evs, m, token)
    requires token.jti in ws[i + 1].ids && Hash(token) !in ws[i + 1].store.tokens
    requires Quiet(evs[m].env.faults) && evs[m].env.clock.entry < token.exp
    ensures var b := ws[m].pending[evs[m].id].begun;
            && b < m
            && (Ended(cfg, ws[m], evs[m]).reply.Renewed? <==>
                  && b <= i && Hash(token) in ws[b].store.tokens
                  && evs[m].env.clock.check <= ws[b].store.tokens[Hash(token)].expiresAt)
  {
    var b := ws[m].pending[evs[m].id].begun;
    RefreshIsDecidedByItsRead(cfg, ws, evs, m, token);
    if b > i {
      AbsentForever(cfg, ws, evs, i + 1, b, Hash(token));
    }
  }

  /** A successful exchange leaves its token spent. */
  lemma ExchangeSpends(cfg: Config, ws: seq<World>, evs: seq<Event>, m: nat, token: RefreshToken)
    requires Trace(cfg, ws, evs) && EndsRefresh(ws, evs, m, token) && Ended(cfg, ws[m], evs[m]).reply.Renewed?
    ensures token.jti in ws[m + 1].ids && Hash(token) !in ws[m + 1].store.tokens
  {
    var p := ws[m].pending[evs[m].id];
    RefreshIsDecidedByItsRead(cfg, ws, evs, m, token);
    RowsOldThroughout(cfg, ws, evs, p.begun);
    IdsGrow(cfg, ws, evs, p.begun, m);
    IdsGrow(cfg, ws, evs, m, m + 1);
    assert Follows(cfg, ws, evs, m);
    RotationRemoves(cfg, ws[m].store, token, evs[m].env, p.seen);
  }

  /**
   After one successful exchange, a second one that meets no fault succeeds
   exactly when it read the live row before the first one committed.
   */
  lemma SecondExchangeIsExactlyOverlap(cfg: Config, ws: seq<World>, evs: seq<Event>, m1: nat, m2: nat,
                                       token: RefreshToken)
    requires Trace(cfg, ws, evs) && m1 < m2
    requires EndsRefresh(ws, evs, m1, token) && Ended(cfg, ws[m1], evs[m1]).reply.Renewed?
    requires EndsRefresh(ws, evs, m2, token) && Quiet(evs[m2].env.faults) && evs[m2].env.clock.entry < token.exp
    ensures var b := ws[m2].pending[evs[m2].id].begun;
            Ended(cfg, ws[m2], evs[m2]).reply.Renewed? <==>
              && b < m1 && Hash(token) in ws[b].store.tokens
              && evs[m2].env.clock.check <= ws[b].store.tokens[Hash(token)].expiresAt
  {
    ExchangeSpends(cfg, ws, evs, m1, token);
    SeenWhenBegun(cfg, ws, evs, m2, evs[m2].id);
    RenewedExactlyByOverlap(cfg, ws, evs, m1, m2, token);
  }

  /** A call that begins and ends with nothing in between does what the serial protocol says. */
  lemma UninterruptedIsSerial(cfg: Config, w: World, id: nat, c: Call, e: Env, index: nat)
    requires id !in w.pending && Ticks(e.clock) && e.jti !in w.ids && e.rowId !in w.ids
    ensures var begun := After(cfg, w, Begin(id, c, e.clock.entry), index);
            && Allowed(begun, End(id, e))
            && Ended(cfg, begun, End(id, e)) == Serve(cfg, w.store, c, e)
            && After(cfg, begun, End(id, e), index + 1).pending == w.pending
  {
  }

  /** A listing counts on the table of its read and takes its page from the table it ends on. */
  lemma ListingIsTwoReads(cfg: Config, ws: seq<World>, evs: seq<Event>, m: nat)
    requires Trace(cfg, ws, evs) && m < |evs| && evs[m].End? && evs[m].id in ws[m].pending
    requires ws[m].pending[evs[m].id].call.ListSessions? && Ended(cfg, ws[m], evs[m]).reply.Listed?
    ensures var p, now, reply := ws[m].pending[evs[m].id], evs[m].env.clock.entry, Ended(cfg, ws[m], evs[m]).reply;
            && p.begun < m
            && reply.total == |ActiveRows(ws[p.begun].store.tokens, p.call.userId, now)|
            && reply.sessions == SessionsOf(ListActive(ws[m].store.tokens, p.call.userId, now, reply.limit,
                                                       Offset(p.call.window)),
                                            CurrentHash(p.call.cookie))
  {
    var p := ws[m].pending[evs[m].id];
    SeenWhenBegun(cfg, ws, evs, m, evs[m].id);
    assert Ended(cfg, ws[m], evs[m]) == ActListSessions(ws[m].store, p.call, evs[m].env,
                                                        SeenTokens(ws[p.begun].store.tokens));
  }

  // ----- Exactly when a deletion is final ---------------------------------

  ghost predicate Deleted(s: Store, u: Uuid) {
    u in s.users && s.users[u].deleted
  }

  ghost predicate HasRow(s: Store, u: Uuid) {
    exists d :: d in s.tokens && s.tokens[d].userId == u
  }

  ghost predicate SawAccount(seen: Seen, u: Uuid, password: Password) {
    seen.SeenUser? && seen.user.Some? && seen.user.value.id == u && Matches(seen.user.value.row.password, password)
  }

  /** The call has read what it needs to issue tokens for the account; only a fault or delay can stop it. */
  ghost predicate WouldIssue(c: Call, at: Instant, seen: Seen, u: Uuid) {
    match c
    case Refresh(presented) =>
      && presented.Signed? && presented.token.userId == u && at < presented.token.exp
      && seen.SeenRow? && seen.row.Some? && at <= seen.row.value.expiresAt
    case Login(_, password) => SawAccount(seen, u, password)
    case ChangePassword(_, current, next) => SawAccount(seen, u, current) && |next| <= BCRYPT_MAX
    case _ => false
  }

  ghost predicate SomeoneWouldIssue(w: World, u: Uuid) {
    exists id :: id in w.pending && WouldIssue(w.pending[id].call, w.pending[id].at, w.pending[id].seen, u)
  }

  ghost predicate Gone(w: World, u: Uuid) {
    Deleted(w.store, u) && !HasRow(w.store, u) && !SomeoneWouldIssue(w, u)
  }

  /** For an account that exists already, only such a call issues. */
  lemma IssuesOnlyIfItWould(cfg: Config, s: Store, c: Call, e: Env, seen: Seen, u: Uuid)
    requires u in s.users && Ticks(e.clock)
    ensures Issues(Act(cfg, s, c, e, seen).reply) && Act(cfg, s, c, e, seen).reply.issued.refresh.userId == u
            ==> WouldIssue(c, e.clock.entry, seen, u)
  {
    match c
    case Register(_, _, _, _) => assert Act(cfg, s, c, e, seen) == ActRegister(cfg, s, c, e, seen);
    case Login(_, _) => assert Act(cfg, s, c, e, seen) == ActLogin(cfg, s, c, e, seen);
    case Refresh(_) => assert Act(cfg, s, c, e, seen) == ActRefresh(cfg, s, c, e, seen);
    case ChangePassword(_, _, _) => assert Act(cfg, s, c, e, seen) == ActChangePassword(cfg, s, c, e, seen);
    case DeleteAccount(_) =>
    case Revoke(_) =>
    case Purge =>
    case GetUser(_) =>
    case ListSessions(_, _, _) =>
  }

  lemma GoneStaysGone(cfg: Config, ws: seq<World>, evs: seq<Event>, i: nat, u: Uuid)
    requires Trace(cfg, ws, evs) && i < |evs| && RowsOld(ws[i]) && Gone(ws[i], u)
    ensures Gone(ws[i + 1], u)
  {
    var w := ws[i];
    assert Follows(cfg, ws, evs, i);
    match evs[i]
    case Begin(id, call, at) =>
      assert !WouldIssue(call, at, Look(w.store, call), u);
    case End(id, env) =>
      var p := w.pending[id];
      ActFrame(cfg, w.store, p.call, env, p.seen);
      IssuesOnlyIfItWould(cfg, w.store, p.call, env, p.seen, u);
  }

  lemma {:induction false} GoneForever(cfg: Config, ws: seq<World>, evs: seq<Event>, i: nat, j: nat, u: Uuid)
    requires Trace(cfg, ws, evs) && i <= j < |ws| && Gone(ws[i], u)
    ensures Gone(ws[j], u)
  {
    if i < j {
      GoneForever(cfg, ws, evs, i, j - 1, u);
      RowsOldThroughout(cfg, ws, evs, j - 1);
      GoneStaysGone(cfg, ws, evs, j - 1, u);
    }
  }

  lemma AccountsStay(cfg: Config, ws: seq<World>, evs: seq<Event>, i: nat, u: Uuid)
    requires Trace(cfg, ws, evs) && i < |evs| && u in ws[i].store.users
    ensures u in ws[i + 1].store.users && (Deleted(ws[i].store, u) ==> Deleted(ws[i + 1].store, u))
    ensures ws[i + 1].store.users[u].email == ws[i].store.users[u].email
  {
    var w, ev := ws[i], evs[i];
    assert Follows(cfg, ws, evs, i);
    if ev.End? {
      ActFrame(cfg, w.store, w.pending[ev.id].call, ev.env, w.pending[ev.id].seen);
    }
  }

  lemma {:induction false} AccountsStayThroughout(cfg: Config, ws: seq<World>, evs: seq<Event>, i: nat, j: nat, u: Uuid)
    requires Trace(cfg, ws, evs) && i <= j < |ws| && u in ws[i].store.users
    ensures u in ws[j].store.users && (Deleted(ws[i].store, u) ==> Deleted(ws[j].store, u))
    ensures ws[j].store.users[u].email == ws[i].store.users[u].email
  {
    if i < j {
      AccountsStayThroughout(cfg, ws, evs, i, j - 1, u);
      AccountsStay(cfg, ws, evs, j - 1, u);
    }
  }

  ghost predicate EndsDeletion(cfg: Config, ws: seq<World>, evs: seq<Event>, i: nat, u: Uuid)
    requires |ws| == |evs| + 1
  {
    && i < |evs| && evs[i].End? && evs[i].id in ws[i].pending
    && ws[i].pending[evs[i].id].call == DeleteAccount(u)
    && Ended(cfg, ws[i], evs[i]).reply == Done
  }

  lemma DeletionLeavesNothing(cfg: Config, s: Store, u: Uuid, e: Env, seen: Seen)
    requires Act(cfg, s, DeleteAccount(u), e, seen).reply == Done
    ensures seen.SeenUser? && seen.user.Some?
    ensures var after := Act(cfg, s, DeleteAccount(u), e, seen).store;
            !HasRow(after, u) && (u in s.users ==> Deleted(after, u))
  {
  }

  lemma DeletionCommitted(cfg: Config, ws: seq<World>, evs: seq<Event>, i: nat, u: Uuid)
    requires Trace(cfg, ws, evs) && EndsDeletion(cfg, ws, evs, i, u)
    ensures Deleted(ws[i + 1].store, u) && !HasRow(ws[i + 1].store, u)
  {
    var p := ws[i].pending[evs[i].id];
    assert Follows(cfg, ws, evs, i);
    DeletionLeavesNothing(cfg, ws[i].store, u, evs[i].env, p.seen);
    SeenWhenBegun(cfg, ws, evs, i, evs[i].id);
    AccountsStayThroughout(cfg, ws, evs, p.begun, i, u);
  }

  lemma {:induction false} SomeUnusedId(ids: set<Uuid>) returns (n: Uuid)
    ensures forall id :: id in ids ==> id < n
  {
    if ids == {} {
      n := 0;
    } else {
      var x :| x in ids;
      var m := SomeUnusedId(ids - {x});
      n := if m > x then m else x + 1;
      assert forall id :: id in ids ==> id == x || id in ids - {x};
    }
  }

  lemma LoginCompletes(cfg: Config, s: Store, c: Call, e: Env, seen: Seen)
    requires c.Login? && seen.SeenUser? && seen.user.Some? && Matches(seen.user.value.row.password, c.password)
    requires e.faults == CALM && forall d :: d in s.tokens ==> d.token.jti != e.jti && s.tokens[d].id != e.rowId
    ensures HasRow(ActLogin(cfg, s, c, e, seen).store, seen.user.value.id)
  {
    var row := MintedRow(cfg, seen.user.value.id, e);
    assert ActLogin(cfg, s, c, e, seen).store.tokens[row.digest] == row;
  }

  lemma ChangeCompletes(cfg: Config, s: Store, c: Call, e: Env, seen: Seen)
    requires c.ChangePassword? && seen.SeenUser? && seen.user.Some? && Matches(seen.user.value.row.password, c.current)
    requires |c.next| <= BCRYPT_MAX
    requires e.faults == CALM && forall d :: d in s.tokens ==> d.token.jti != e.jti && s.tokens[d].id != e.rowId
    ensures HasRow(ActChangePassword(cfg, s, c, e, seen).store, seen.user.value.id)
  {
    var row := MintedRow(cfg, seen.user.value.id, e);
    assert ActChangePassword(cfg, s, c, e, seen).store.tokens[row.digest] == row;
  }

  /** A renewed pair leaves its row in the table. */
  lemma RenewalStoresRow(cfg: Config, s: Store, token: RefreshToken, e: Env, seen: Seen)
    requires Act(cfg, s, Refresh(Signed(token)), e, seen).reply.Renewed?
    ensures HasRow(Act(cfg, s, Refresh(Signed(token)), e, seen).store, token.userId)
  {
    var c := Refresh(Signed(token));
    RefreshFrame(cfg, s, c, e, seen);
    RefreshPair(cfg, s, c, e, seen);
    var f := Act(cfg, s, c, e, seen);
    assert f.store.tokens[Hash(f.reply.issued.refresh)].userId == token.userId;
  }

  /** Nothing on the table stops such a call: without delay or faults and with unused identifiers it issues. */
  lemma Completes(cfg: Config, s: Store, c: Call, at: Instant, seen: Seen, n: Uuid, u: Uuid)
    requires WouldIssue(c, at, seen, u)
    requires forall d :: d in s.tokens ==> d.token.jti != n && s.tokens[d].id != n
    ensures HasRow(Act(cfg, s, c, At(at, n), seen).store, u)
  {
    var e := At(at, n);
    match c
    case Refresh(presented) =>
      RotationIgnoresTheTable(cfg, s, presented.token, e, seen);
      RenewalStoresRow(cfg, s, presented.token, e, seen);
    case Login(_, _) => LoginCompletes(cfg, s, c, e, seen);
    case ChangePassword(_, _, _) => ChangeCompletes(cfg, s, c, e, seen);
  }

  /** A longer trace that begins with this one. */
  ghost predicate Extends(cfg: Config, ws: seq<World>, evs: seq<Event>, ws': seq<World>, evs': seq<Event>) {
    Trace(cfg, ws', evs') && ws <= ws' && evs <= evs'
  }

  ghost predicate CanHaveRowAgain(cfg: Config, ws: seq<World>, evs: seq<Event>, u: Uuid) {
    exists ws': seq<World>, evs': seq<Event> :: Extends(cfg, ws, evs, ws', evs') && HasRow(ws'[|evs'|].store, u)
  }

  lemma OneMore(cfg: Config, ws: seq<World>, evs: seq<Event>, ev: Event) returns (w: World)
    requires Trace(cfg, ws, evs) && Allowed(ws[|evs|], ev)
    ensures w == After(cfg, ws[|evs|], ev, |evs|) && Extends(cfg, ws, evs, ws + [w], evs + [ev])
  {
    w := After(cfg, ws[|evs|], ev, |evs|);
    var ws', evs' := ws + [w], evs + [ev];
    forall i | 0 <= i < |evs'| ensures Follows(cfg, ws', evs', i) {
      if i < |evs| {
        assert Follows(cfg, ws, evs, i);
      }
    }
  }

  lemma PendingBringsBack(cfg: Config, ws: seq<World>, evs: seq<Event>, id: nat, u: Uuid)
    requires Trace(cfg, ws, evs) && id in ws[|evs|].pending
    requires var p := ws[|evs|].pending[id]; WouldIssue(p.call, p.at, p.seen, u)
    ensures CanHaveRowAgain(cfg, ws, evs, u)
  {
    var w := ws[|evs|];
    var p := w.pending[id];
    RowsOldThroughout(cfg, ws, evs, |evs|);
    var n := SomeUnusedId(w.ids);
    var ev := End(id, At(p.at, n));
    Completes(cfg, w.store, p.call, p.at, p.seen, n, u);
    var w' := OneMore(cfg, ws, evs, ev);
    assert (ws + [w'])[|evs + [ev]|] == w';
    assert Extends(cfg, ws, evs, ws + [w'], evs + [ev]);
  }

  /**
   When the deletion of an account has just committed, some continuation gives
   the account a row again if and only if a call in flight has already read what
   it needs to issue for it: a refresh its row, both unexpired when it entered, a
   login or a password change the account with a matching password.
   */
  lemma DeletionIsFinalExactly(cfg: Config, ws: seq<World>, evs: seq<Event>, u: Uuid)
    requires Trace(cfg, ws, evs) && evs != [] && EndsDeletion(cfg, ws, evs, |evs| - 1, u)
    ensures CanHaveRowAgain(cfg, ws, evs, u) <==> SomeoneWouldIssue(ws[|evs|], u)
  {
    var w := ws[|evs|];
    if SomeoneWouldIssue(w, u) {
      var id :| id in w.pending && WouldIssue(w.pending[id].call, w.pending[id].at, w.pending[id].seen, u);
      PendingBringsBack(cfg, ws, evs, id, u);
    } else {
      DeletionCommitted(cfg, ws, evs, |evs| - 1, u);
      forall ws': seq<World>, evs': seq<Event> | Extends(cfg, ws, evs, ws', evs')
        ensures !HasRow(ws'[|evs'|].store, u) {
        assert ws'[|evs|] == w;
        GoneForever(cfg, ws', evs', |evs|, |evs'|, u);
      }
    }
  }

  /**
   Once a deletion has committed, an older token of the account that meets no
   fault is still renewed exactly when the refresh had read its live row before
   the commit; and then the deleted account has a row again.
   */
  lemma SurvivingSessionIsExactlyOverlap(cfg: Config, ws: seq<World>, evs: seq<Event>, i: nat, m: nat,
                                         token: RefreshToken)
    requires Trace(cfg, ws, evs) && i < m && EndsDeletion(cfg, ws, evs, i, token.userId) && token.jti in ws[i].ids
    requires EndsRefresh(ws, evs, m, token) && Quiet(evs[m].env.faults) && evs[m].env.clock.entry < token.exp
    ensures var b := ws[m].pending[evs[m].id].begun;
            Ended(cfg, ws[m], evs[m]).reply.Renewed? <==>
              && b < i && Hash(token) in ws[b].store.tokens
              && evs[m].env.clock.check <= ws[b].store.tokens[Hash(token)].expiresAt
    ensures Deleted(ws[m + 1].store, token.userId)
    ensures Ended(cfg, ws[m], evs[m]).reply.Renewed? ==> HasRow(ws[m + 1].store, token.userId)
  {
    DeletionCommitted(cfg, ws, evs, i, token.userId);
    AccountsStayThroughout(cfg, ws, evs, i + 1, m + 1, token.userId);
    RowsOldThroughout(cfg, ws, evs, i + 1);
    IdsGrow(cfg, ws, evs, i, i + 1);
    SeenWhenBegun(cfg, ws, evs, m, evs[m].id);
    RenewedExactlyByOverlap(cfg, ws, evs, i, m, token);
    if Ended(cfg, ws[m], evs[m]).reply.Renewed? {
      assert Follows(cfg, ws, evs, m);
      RenewalStoresRow(cfg, ws[m].store, token, evs[m].env, ws[m].pending[evs[m].id].seen);
    }
  }

  // ----- Overlaps that defeat the serial guarantees -----------------------

  const EMPTY := World(Store(map[], map[]), 0, {}, map[])
  const ALICE := Register(ADDRESS, OLD_PASSWORD, "Alice", 7)

  function FirstToken(cfg: Config): RefreshToken {
    MintedToken(cfg, 7, At(0, 1))
  }

  /** A trace from the empty tables in which Alice registers before anything else. */
  ghost predicate AfterRegistration(cfg: Config, ws: seq<World>, evs: seq<Event>) {
    && Trace(cfg, ws, evs) && ws[0] == EMPTY && |evs| >= 2 && evs[..2] == [Begin(0, ALICE, 0), End(0, At(0, 1))]
    && ws[2].pending == map[] && ws[2].ids == {1} && ws[2].now == 0
    && ws[2].store.users == map[7 := UserRow(ADDRESS, PasswordHash(Stream(OLD_PASSWORD)), "Alice", false)]
    && ws[2].store.tokens == map[Hash(FirstToken(cfg)) := MintedRow(cfg, 7, At(0, 1))]
  }

  lemma RegisterAlice(cfg: Config) returns (ws: seq<World>, evs: seq<Event>)
    ensures AfterRegistration(cfg, ws, evs) && |evs| == 2
  {
    ws, evs := [EMPTY], [];
    var w1 := OneMore(cfg, ws, evs, Begin(0, ALICE, 0));
    ws, evs := ws + [w1], evs + [Begin(0, ALICE, 0)];
    assert Holders(EMPTY.store, ADDRESS) == {};
    var e := At(0, 1);
    assert Ended(cfg, w1, End(0, e)) == ActRegister(cfg, EMPTY.store, ALICE, e, SeenUser(None));
    var w2 := OneMore(cfg, ws, evs, End(0, e));
    ws, evs := ws + [w2], evs + [End(0, e)];
  }

  lemma FirstTokenIsValid(cfg: Config)
    requires cfg.jwtTtl >= SECOND
    ensures 0 < FirstToken(cfg).exp
  {
  }

  /** Both calls read the row, then both rotate it: one token, two pairs. */
  lemma OneTokenTwoPairs(cfg: Config) returns (ws: seq<World>, evs: seq<Event>)
    requires cfg.jwtTtl >= SECOND && cfg.rowTtl >= 0
    ensures AfterRegistration(cfg, ws, evs) && |evs| == 6
    ensures EndsRefresh(ws, evs, 4, FirstToken(cfg)) && Ended(cfg, ws[4], evs[4]).reply.Renewed?
    ensures EndsRefresh(ws, evs, 5, FirstToken(cfg)) && Ended(cfg, ws[5], evs[5]).reply.Renewed?
  {
    var c := Refresh(Signed(FirstToken(cfg)));
    ws, evs := RegisterAlice(cfg);
    var w3 := OneMore(cfg, ws, evs, Begin(1, c, 0));
    ws, evs := ws + [w3], evs + [Begin(1, c, 0)];
    var w4 := OneMore(cfg, ws, evs, Begin(2, c, 0));
    ws, evs := ws + [w4], evs + [Begin(2, c, 0)];
    var w5 := OneMore(cfg, ws, evs, End(1, At(0, 2)));
    ws, evs := ws + [w5], evs + [End(1, At(0, 2))];
    var w6 := OneMore(cfg, ws, evs, End(2, At(0, 3)));
    ws, evs := ws + [w6], evs + [End(2, At(0, 3))];
    FirstTokenIsValid(cfg);
    RefreshIsDecidedByItsRead(cfg, ws, evs, 4, FirstToken(cfg));
    RefreshIsDecidedByItsRead(cfg, ws, evs, 5, FirstToken(cfg));
  }

  /** A refresh that read its row before the deletion leaves a row of a deleted account. */
  lemma SessionOfADeletedAccount(cfg: Config) returns (ws: seq<World>, evs: seq<Event>)
    requires cfg.jwtTtl >= SECOND && cfg.rowTtl >= 0
    ensures AfterRegistration(cfg, ws, evs) && |evs| == 6 && EndsDeletion(cfg, ws, evs, 4, 7)
    ensures Deleted(ws[6].store, 7) && HasRow(ws[6].store, 7)
  {
    var c := Refresh(Signed(FirstToken(cfg)));
    ws, evs := RegisterAlice(cfg);
    var w3 := OneMore(cfg, ws, evs, Begin(1, c, 0));
    ws, evs := ws + [w3], evs + [Begin(1, c, 0)];
    var w4 := OneMore(cfg, ws, evs, Begin(2, DeleteAccount(7), 0));
    ws, evs := ws + [w4], evs + [Begin(2, DeleteAccount(7), 0)];
    var w5 := OneMore(cfg, ws, evs, End(2, At(0, 2)));
    ws, evs := ws + [w5], evs + [End(2, At(0, 2))];
    assert Ended(cfg, w4, End(2, At(0, 2))) == ActDeleteAccount(w4.store, DeleteAccount(7), At(0, 2),
                                                                w4.pending[2].seen);
    var w6 := OneMore(cfg, ws, evs, End(1, At(0, 3)));
    ws, evs := ws + [w6], evs + [End(1, At(0, 3))];
    FirstTokenIsValid(cfg);
    SurvivingSessionIsExactlyOverlap(cfg, ws, evs, 4, 5, FirstToken(cfg));
  }

  /** A refresh that read its row before a password change still returns a pair after it. */
  lemma SessionOfTheOldPassword(cfg: Config) returns (ws: seq<World>, evs: seq<Event>)
    requires cfg.jwtTtl >= SECOND && cfg.rowTtl >= 0
    ensures AfterRegistration(cfg, ws, evs) && |evs| == 6
    ensures evs[4].End? && evs[4].id in ws[4].pending
            && ws[4].pending[evs[4].id].call == ChangePassword(7, OLD_PASSWORD, NEW_PASSWORD)
    ensures Ended(cfg, ws[4], evs[4]).reply.Renewed? && Hash(FirstToken(cfg)) !in ws[5].store.tokens
    ensures EndsRefresh(ws, evs, 5, FirstToken(cfg)) && Ended(cfg, ws[5], evs[5]).reply.Renewed?
  {
    var c, change, e := Refresh(Signed(FirstToken(cfg))), ChangePassword(7, OLD_PASSWORD, NEW_PASSWORD), At(0, 2);
    ws, evs := RegisterAlice(cfg);
    var w3 := OneMore(cfg, ws, evs, Begin(1, c, 0));
    ws, evs := ws + [w3], evs + [Begin(1, c, 0)];
    var w4 := OneMore(cfg, ws, evs, Begin(2, change, 0));
    ws, evs := ws + [w4], evs + [Begin(2, change, 0)];
    var w5 := OneMore(cfg, ws, evs, End(2, e));
    ws, evs := ws + [w5], evs + [End(2, e)];
    assert Ended(cfg, w4, End(2, e)) == ActChangePassword(cfg, w4.store, change, e, w4.pending[2].seen);
    var w6 := OneMore(cfg, ws, evs, End(1, At(0, 3)));
    ws, evs := ws + [w6], evs + [End(1, At(0, 3))];
    FirstTokenIsValid(cfg);
    RenewedExactlyByOverlap(cfg, ws, evs, 4, 5, FirstToken(cfg));
  }
}
