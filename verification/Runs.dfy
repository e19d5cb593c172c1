/**
 Serial runs: one service call after another, on a clock that never goes back,
 with identifiers that are never handed out twice.

 The world adds to the tables the history the claims are about: the identifiers
 handed out so far, and for every digest ever stored the digest its family
 started from. Register, Login and ChangePassword start a family; Refresh
 continues the family of the token it retires.
 */
module Runs {
  import opened Entities
  import opened Credentials
  import opened Protocol
  import opened Frames

  datatype World = World(store: Store, now: Instant, ids: set<Uuid>, root: map<Digest, Digest>)

  datatype Step = Step(call: Call, env: Env)

  const EMPTY: World := World(Store(map[], map[]), 0, {}, map[])

  ghost predicate Enabled(w: World, st: Step) {
    && w.now <= st.env.clock.entry && Ticks(st.env.clock)
    && st.env.jti !in w.ids && st.env.rowId !in w.ids
  }

  ghost function Served(cfg: Config, w: World, st: Step): Effect {
    Serve(cfg, w.store, st.call, st.env)
  }

  ghost function ReplyOf(cfg: Config, w: World, st: Step): Reply {
    Served(cfg, w, st).reply
  }

  ghost function RootOf(w: World, c: Call, d: Digest): Digest {
    if c.Refresh? && c.presented.Signed? && Hash(c.presented.token) in w.root then
      w.root[Hash(c.presented.token)]
    else
      d
  }

  ghost function NextRoot(w: World, c: Call, reply: Reply): map<Digest, Digest> {
    if Issues(reply) then
      var d := Hash(reply.issued.refresh);
      w.root[d := RootOf(w, c, d)]
    else
      w.root
  }

  ghost function Next(cfg: Config, w: World, st: Step): World {
    World(Served(cfg, w, st).store, st.env.clock.created, w.ids + {st.env.jti, st.env.rowId},
          NextRoot(w, st.call, ReplyOf(cfg, w, st)))
  }

  // ----- The invariant of every reachable world --------------------------

  ghost predicate RowOk(w: World, d: Digest)
    requires d in w.store.tokens
  {
    var row := w.store.tokens[d];
    && row.digest == d && row.userId == d.token.userId
    && Visible(w.store, row.userId)
    && d.token.jti in w.ids && row.id in w.ids && d in w.root && d.token.spelling == 0
  }

  ghost predicate RowsOk(w: World) {
    forall d :: d in w.store.tokens ==> RowOk(w, d)
  }

  lemma RowFact(w: World, d: Digest)
    requires RowsOk(w)
    ensures d in w.store.tokens ==> RowOk(w, d)
  {
  }

  ghost predicate DistinctRowIds(w: World) {
    forall d, d' ::
      d in w.store.tokens && d' in w.store.tokens && w.store.tokens[d].id == w.store.tokens[d'].id ==> d == d'
  }

  ghost predicate RootsOld(w: World) {
    forall d :: d in w.root ==> w.root[d].token.jti in w.ids
  }

  /** Every family has at most one stored row. */
  ghost predicate OneRowPerFamily(w: World)
    requires RowsOk(w)
  {
    forall d, d' :: d in w.store.tokens && d' in w.store.tokens && w.root[d] == w.root[d'] ==> d == d'
  }

  ghost predicate Inv(w: World) {
    RowsOk(w) && DistinctRowIds(w) && RootsOld(w) && OneRowPerFamily(w) && UniqueEmails(w.store)
  }

  /** The user a successful issue is for is visible afterwards, and a rotation retires the presented row. */
  lemma IssueIsForVisibleUser(cfg: Config, w: World, st: Step)
    requires Inv(w) && Enabled(w, st) && Issues(ReplyOf(cfg, w, st))
    ensures Visible(Next(cfg, w, st).store, ReplyOf(cfg, w, st).issued.refresh.userId)
    ensures st.call.Refresh? ==>
              && st.call.presented.Signed?
              && Hash(st.call.presented.token) in w.store.tokens
              && Hash(st.call.presented.token) !in Next(cfg, w, st).store.tokens
              && st.call.presented.token.userId == ReplyOf(cfg, w, st).issued.refresh.userId
  {
    var s, c, e := w.store, st.call, st.env;
    match c
    case Register(_, _, _, _) => RegisterPair(cfg, s, c, e, Look(s, c));
    case Login(_, _) => LoginPair(cfg, s, c, e, Look(s, c));
    case Refresh(_) =>
      RefreshPair(cfg, s, c, e, Look(s, c));
      RowFact(w, Hash(c.presented.token));
    case ChangePassword(_, _, _) => ChangePasswordPair(cfg, s, c, e, Look(s, c));
    case DeleteAccount(_) =>
    case Revoke(_) =>
    case Purge =>
    case GetUser(_) =>
    case ListSessions(_, _, _) =>
  }

  /** Nothing but its deletion hides an account, and that takes every row of the account with it. */
  lemma OnlyDeletionHides(cfg: Config, s: Store, c: Call, e: Env, seen: Seen, u: Uuid)
    requires Visible(s, u)
    ensures var after := Act(cfg, s, c, e, seen).store;
            Visible(after, u) || forall d :: d in after.tokens ==> after.tokens[d].userId != u
  {
    match c
    case Register(_, _, _, _) => assert Act(cfg, s, c, e, seen) == ActRegister(cfg, s, c, e, seen);
    case Login(_, _) => assert Act(cfg, s, c, e, seen) == ActLogin(cfg, s, c, e, seen);
    case Refresh(_) => assert Act(cfg, s, c, e, seen) == ActRefresh(cfg, s, c, e, seen);
    case ChangePassword(_, _, _) => assert Act(cfg, s, c, e, seen) == ActChangePassword(cfg, s, c, e, seen);
    case DeleteAccount(_) => assert Act(cfg, s, c, e, seen) == ActDeleteAccount(s, c, e, seen);
    case Revoke(_) =>
    case Purge =>
    case GetUser(_) =>
    case ListSessions(_, _, _) =>
  }

  /** A row either survived the step or is the minted one, whose identifiers are new. */
  lemma OldOrNew(cfg: Config, w: World, st: Step, d: Digest)
    requires Inv(w) && Enabled(w, st) && d in Next(cfg, w, st).store.tokens
    ensures var row := Next(cfg, w, st).store.tokens[d];
            || (d in w.store.tokens && row == w.store.tokens[d] && d.token.jti != st.env.jti && row.id != st.env.rowId)
            || (d !in w.store.tokens && IsMinted(cfg, st.env, ReplyOf(cfg, w, st), d, row))
  {
    ActFrame(cfg, w.store, st.call, st.env, Look(w.store, st.call));
    if d in w.store.tokens {
      assert RowOk(w, d);
    }
  }

  lemma RowStaysOk(cfg: Config, w: World, st: Step, d: Digest)
    requires Inv(w) && Enabled(w, st) && d in Next(cfg, w, st).store.tokens
    ensures RowOk(Next(cfg, w, st), d)
  {
    OldOrNew(cfg, w, st, d);
    if d in w.store.tokens {
      RowFact(w, d);
      OnlyDeletionHides(cfg, w.store, st.call, st.env, Look(w.store, st.call), w.store.tokens[d].userId);
    } else {
      IssueIsForVisibleUser(cfg, w, st);
    }
  }

  lemma RowsStayOk(cfg: Config, w: World, st: Step)
    requires Inv(w) && Enabled(w, st)
    ensures RowsOk(Next(cfg, w, st))
  {
    forall d | d in Next(cfg, w, st).store.tokens ensures RowOk(Next(cfg, w, st), d) {
      RowStaysOk(cfg, w, st, d);
    }
  }

  lemma RowIdsStayDistinct(cfg: Config, w: World, st: Step)
    requires Inv(w) && Enabled(w, st)
    ensures DistinctRowIds(Next(cfg, w, st))
  {
    var w' := Next(cfg, w, st);
    forall d, d' | d in w'.store.tokens && d' in w'.store.tokens && w'.store.tokens[d].id == w'.store.tokens[d'].id
      ensures d == d'
    {
      OldOrNew(cfg, w, st, d);
      OldOrNew(cfg, w, st, d');
    }
  }

  lemma RootsStayOld(cfg: Config, w: World, st: Step)
    requires Inv(w) && Enabled(w, st)
    ensures RootsOld(Next(cfg, w, st))
  {
    ActFrame(cfg, w.store, st.call, st.env, Look(w.store, st.call));
  }

  lemma RootKept(cfg: Config, w: World, st: Step, d: Digest)
    requires Inv(w) && Enabled(w, st) && d in w.store.tokens
    ensures d in w.root && Next(cfg, w, st).root[d] == w.root[d]
  {
    RowFact(w, d);
    ActFrame(cfg, w.store, st.call, st.env, Look(w.store, st.call));
  }

  /** The family a new row joins has no surviving row. */
  lemma NewRootIsFree(cfg: Config, w: World, st: Step, old': Digest)
    requires Inv(w) && Enabled(w, st) && Issues(ReplyOf(cfg, w, st))
    requires old' in w.store.tokens && old' in Next(cfg, w, st).store.tokens
    requires old'.token.jti != st.env.jti
    ensures Next(cfg, w, st).root[old'] != Next(cfg, w, st).root[Hash(ReplyOf(cfg, w, st).issued.refresh)]
  {
    ActFrame(cfg, w.store, st.call, st.env, Look(w.store, st.call));
    IssueIsForVisibleUser(cfg, w, st);
    assert RowOk(w, old');
    if st.call.Refresh? {
      assert RowOk(w, Hash(st.call.presented.token));
    }
  }

  lemma SameFamilySameRow(cfg: Config, w: World, st: Step, d: Digest, d': Digest)
    requires Inv(w) && Enabled(w, st) && RowsOk(Next(cfg, w, st))
    requires d in Next(cfg, w, st).store.tokens && d' in Next(cfg, w, st).store.tokens
    requires d in Next(cfg, w, st).root && d' in Next(cfg, w, st).root
             && Next(cfg, w, st).root[d] == Next(cfg, w, st).root[d']
    ensures d == d'
  {
    OldOrNew(cfg, w, st, d);
    OldOrNew(cfg, w, st, d');
    if d in w.store.tokens && d' in w.store.tokens {
      RootKept(cfg, w, st, d);
      RootKept(cfg, w, st, d');
    } else if d in w.store.tokens {
      NewRootIsFree(cfg, w, st, d);
    } else if d' in w.store.tokens {
      NewRootIsFree(cfg, w, st, d');
    }
  }

  lemma FamiliesStaySingle(cfg: Config, w: World, st: Step)
    requires Inv(w) && Enabled(w, st)
    requires RowsOk(Next(cfg, w, st))
    ensures OneRowPerFamily(Next(cfg, w, st))
  {
    var w' := Next(cfg, w, st);
    forall d, d' | d in w'.store.tokens && d' in w'.store.tokens && w'.root[d] == w'.root[d'] ensures d == d' {
      SameFamilySameRow(cfg, w, st, d, d');
    }
  }

  /** Every enabled call keeps the invariant, whatever fails inside it. */
  lemma InvIsKept(cfg: Config, w: World, st: Step)
    requires Inv(w) && Enabled(w, st)
    ensures Inv(Next(cfg, w, st))
  {
    RowsStayOk(cfg, w, st);
    RowIdsStayDistinct(cfg, w, st);
    RootsStayOld(cfg, w, st);
    FamiliesStaySingle(cfg, w, st);
    EmailsStayUnique(cfg, w.store, st.call, st.env, Look(w.store, st.call));
  }

  lemma EmptyTablesAreFine()
    ensures Inv(EMPTY)
  {
  }

  // ----- Runs ------------------------------------------------------------

  /** Step i leads from ws[i] to ws[i + 1]. */
  ghost predicate Follows(cfg: Config, ws: seq<World>, steps: seq<Step>, i: nat)
    requires i < |steps| && |ws| == |steps| + 1
  {
    Enabled(ws[i], steps[i]) && ws[i + 1] == Next(cfg, ws[i], steps[i])
  }

  /** A run visits ws[0], ws[1], ... */
  ghost predicate Run(cfg: Config, ws: seq<World>, steps: seq<Step>) {
    && |ws| == |steps| + 1
    && Inv(ws[0])
    && forall i :: 0 <= i < |steps| ==> Follows(cfg, ws, steps, i)
  }

  lemma InvAfterStep(cfg: Config, ws: seq<World>, steps: seq<Step>, i: nat)
    requires Run(cfg, ws, steps) && i < |steps| && Inv(ws[i])
    ensures Inv(ws[i + 1])
  {
    assert Follows(cfg, ws, steps, i);
    InvIsKept(cfg, ws[i], steps[i]);
  }

  lemma {:induction false} InvThroughout(cfg: Config, ws: seq<World>, steps: seq<Step>, i: nat)
    requires Run(cfg, ws, steps) && i < |ws|
    ensures Inv(ws[i])
  {
    if i > 0 {
      InvThroughout(cfg, ws, steps, i - 1);
      InvAfterStep(cfg, ws, steps, i - 1);
    }
  }
}
