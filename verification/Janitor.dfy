/**
 The sweep of expired rows is invisible.

 A run with sweeps is compared with the same run without them. The two tables
 drift apart only by rows whose expiry has passed, and a token whose row has
 expired fails its own signature expiry before anyone looks for the row.
 */
module Janitor {
  import opened Entities
  import opened Credentials
  import opened Listing
  import opened Protocol
  import opened Frames
  import opened Runs

  // ----- Runs as functions of their steps --------------------------------

  ghost predicate Possible(cfg: Config, w: World, steps: seq<Step>)
    decreases |steps|
  {
    steps == [] || (Enabled(w, steps[0]) && Possible(cfg, Next(cfg, w, steps[0]), steps[1..]))
  }

  ghost function Final(cfg: Config, w: World, steps: seq<Step>): World
    decreases |steps|
  {
    if steps == [] then w else Final(cfg, Next(cfg, w, steps[0]), steps[1..])
  }

  /** The replies to everything but the sweeps. */
  ghost function Replies(cfg: Config, w: World, steps: seq<Step>): seq<Reply>
    decreases |steps|
  {
    if steps == [] then []
    else (if steps[0].call.Purge? then [] else [ReplyOf(cfg, w, steps[0])])
         + Replies(cfg, Next(cfg, w, steps[0]), steps[1..])
  }

  function WithoutPurges(steps: seq<Step>): seq<Step> {
    if steps == [] then []
    else (if steps[0].call.Purge? then [] else [steps[0]]) + WithoutPurges(steps[1..])
  }

  /** The rows a sweep at the given instant would keep. */
  ghost function Live(s: Store, at: Instant): map<Digest, TokenRow> {
    DeleteExpired(s, at).tokens
  }

  ghost predicate Transparent(cfg: Config, w: World, steps: seq<Step>) {
    var swept, unswept := Final(cfg, w, steps), Final(cfg, w, WithoutPurges(steps));
    && Possible(cfg, w, WithoutPurges(steps))
    && Replies(cfg, w, steps) == Replies(cfg, w, WithoutPurges(steps))
    && swept.store.users == unswept.store.users
    && Live(swept.store, swept.now) == Live(unswept.store, swept.now)
  }

  // ----- The simulation --------------------------------------------------

  /** A signed token gives up no later than one nanosecond after its row, or has given up already. */
  ghost predicate ExpireFirst(s: Store, now: Instant) {
    forall d :: d in s.tokens ==> d.token.exp <= s.tokens[d].expiresAt + 1 || d.token.exp <= now
  }

  ghost predicate TtlsAgree(cfg: Config) {
    cfg.jwtTtl <= 0 || cfg.jwtTtl <= cfg.rowTtl + 1
  }

  /** The swept tables hold the unswept rows except some that expired before the given instant. */
  ghost predicate SimStore(swept: Store, unswept: Store, at: Instant) {
    && swept.users == unswept.users
    && (forall d :: d in swept.tokens ==> d in unswept.tokens && unswept.tokens[d] == swept.tokens[d])
    && (forall d :: d in unswept.tokens && d !in swept.tokens ==> unswept.tokens[d].expiresAt < at)
  }

  ghost predicate Sim(swept: World, unswept: World) {
    && SimStore(swept.store, unswept.store, swept.now)
    && swept.root == unswept.root
    && unswept.now <= swept.now && unswept.ids <= swept.ids
  }

  /** The identifiers a call is about to use clash with no row. */
  ghost predicate FreshIn(s: Store, e: Env) {
    forall d :: d in s.tokens ==> d.token.jti != e.jti && s.tokens[d].id != e.rowId
  }

  ghost predicate SameEffect(fa: Effect, fb: Effect, at: Instant) {
    fa.reply == fb.reply && SimStore(fa.store, fb.store, at)
  }

  /** A minted token gives up no later than a nanosecond after its row, or before the call is over. */
  lemma MintedExpiresFirst(cfg: Config, e: Env, reply: Reply, d: Digest, row: TokenRow)
    requires TtlsAgree(cfg) && Ticks(e.clock) && IsMinted(cfg, e, reply, d, row)
    ensures d.token.exp <= row.expiresAt + 1 || d.token.exp <= e.clock.created
  {
    assert d.token.exp == NumericDate(e.clock.mint + cfg.jwtTtl);
  }

  lemma TokensKeepExpiringFirst(cfg: Config, w: World, st: Step)
    requires TtlsAgree(cfg) && Enabled(w, st) && ExpireFirst(w.store, w.now)
    ensures ExpireFirst(Next(cfg, w, st).store, Next(cfg, w, st).now)
  {
    var f := Served(cfg, w, st);
    ActFrame(cfg, w.store, st.call, st.env, Look(w.store, st.call));
    forall d | d in f.store.tokens
      ensures d.token.exp <= f.store.tokens[d].expiresAt + 1 || d.token.exp <= st.env.clock.created
    {
      if !(d in w.store.tokens && f.store.tokens[d] == w.store.tokens[d]) {
        MintedExpiresFirst(cfg, st.env, f.reply, d, f.store.tokens[d]);
      }
    }
  }

  /** Lookups by account see only the user table. */
  lemma SameUsersSameLook(a: Store, b: Store, c: Call)
    requires a.users == b.users && !c.Refresh? && !c.ListSessions?
    ensures Look(a, c) == Look(b, c)
  {
    if c.Register? || c.Login? {
      assert Holders(a, c.email) == Holders(b, c.email);
    }
  }

  /** A token that is still valid has its row in both worlds or in neither. */
  lemma ValidTokenSameRow(cfg: Config, a: World, b: World, st: Step)
    requires Sim(a, b) && ExpireFirst(b.store, b.now) && Enabled(a, st)
    requires st.call.Refresh? && ValidateRefreshToken(st.call.presented, st.env.clock.entry).Some?
    ensures Look(a.store, st.call) == Look(b.store, st.call)
  {
  }

  lemma SameIssue(cfg: Config, sa: Store, sb: Store, at: Instant, who: Profile, e: Env)
    requires SimStore(sa, sb, at) && FreshIn(sb, e)
    ensures var ia, ib := IssueTokens(cfg, sa, who, e), IssueTokens(cfg, sb, who, e);
            && ia.Issued? == ib.Issued?
            && (ia.Issued? ==> ia.tokens == ib.tokens && SimStore(ia.store, ib.store, at))
  {
    var row := MintedRow(cfg, who.id, e);
    assert TokenKeysFree(sb, row.id, row.digest);
    assert TokenKeysFree(sa, row.id, row.digest);
  }

  lemma SameRevocation(sa: Store, sb: Store, at: Instant, u: Uuid)
    requires SimStore(sa, sb, at)
    ensures SimStore(DeleteByUserId(sa, u), DeleteByUserId(sb, u), at)
  {
  }

  lemma FreshAfterRevocation(s: Store, u: Uuid, e: Env)
    requires FreshIn(s, e)
    ensures FreshIn(DeleteByUserId(s, u), e)
  {
  }

  lemma SameRemoval(sa: Store, sb: Store, at: Instant, d: Digest)
    requires SimStore(sa, sb, at)
    ensures SimStore(DeleteByTokenHash(sa, d), DeleteByTokenHash(sb, d), at)
  {
  }

  lemma SameRegister(cfg: Config, sa: Store, sb: Store, at: Instant, c: Call, e: Env, seen: Seen)
    requires SimStore(sa, sb, at) && FreshIn(sb, e) && c.Register?
    ensures SameEffect(ActRegister(cfg, sa, c, e, seen), ActRegister(cfg, sb, c, e, seen), at)
  {
    var hash := HashPassword(c.password);
    if hash.Some? {
      var row := UserRow(c.email, hash.value, c.name, false);
      SameIssue(cfg, sa.(users := sa.users[c.newId := row]), sb.(users := sb.users[c.newId := row]), at,
                Profile(c.newId, c.email, c.name), e);
    }
  }

  lemma SameLogin(cfg: Config, sa: Store, sb: Store, at: Instant, c: Call, e: Env, seen: Seen)
    requires SimStore(sa, sb, at) && FreshIn(sb, e) && c.Login?
    ensures SameEffect(ActLogin(cfg, sa, c, e, seen), ActLogin(cfg, sb, c, e, seen), at)
  {
    if seen.SeenUser? && seen.user.Some? {
      SameIssue(cfg, sa, sb, at, ProfileOf(seen.user.value), e);
    }
  }

  /** The body of the rotation. */
  lemma SameRotation(cfg: Config, sa: Store, sb: Store, at: Instant, d: Digest, who: Profile, e: Env)
    requires SimStore(sa, sb, at) && FreshIn(sb, e)
    ensures var ia := IssueTokens(cfg, DeleteByTokenHash(sa, d), who, e);
            var ib := IssueTokens(cfg, DeleteByTokenHash(sb, d), who, e);
            && ia.Issued? == ib.Issued?
            && (ia.Issued? ==> ia.tokens == ib.tokens && SimStore(ia.store, ib.store, at))
  {
    SameRemoval(sa, sb, at, d);
    assert FreshIn(DeleteByTokenHash(sb, d), e);
    SameIssue(cfg, DeleteByTokenHash(sa, d), DeleteByTokenHash(sb, d), at, who, e);
  }

  /** The branch of Refresh that opens a transaction. */
  ghost predicate Rotates(c: Call, e: Env, seen: Seen) {
    && c.Refresh? && ValidateRefreshToken(c.presented, e.clock.entry).Some?
    && seen.SeenRow? && seen.row.Some? && e.clock.check <= seen.row.value.expiresAt
  }

  lemma SameRefreshRotating(cfg: Config, sa: Store, sb: Store, at: Instant, c: Call, e: Env, seen: Seen)
    requires SimStore(sa, sb, at) && FreshIn(sb, e) && Rotates(c, e, seen)
    ensures SameEffect(ActRefresh(cfg, sa, c, e, seen), ActRefresh(cfg, sb, c, e, seen), at)
  {
    var token := c.presented.token;
    SameRotation(cfg, sa, sb, at, Hash(token), Profile(token.userId, "", ""), e);
  }

  lemma SameRefreshRefused(cfg: Config, sa: Store, sb: Store, at: Instant, c: Call, e: Env, seen: Seen)
    requires SimStore(sa, sb, at) && c.Refresh? && !Rotates(c, e, seen)
    ensures SameEffect(ActRefresh(cfg, sa, c, e, seen), ActRefresh(cfg, sb, c, e, seen), at)
  {
    if c.presented.Signed? {
      SameRevocation(sa, sb, at, c.presented.token.userId);
      SameRemoval(sa, sb, at, Hash(c.presented.token));
    }
  }

  lemma SameUpdate(sa: Store, sb: Store, at: Instant, u: Uuid, patch: UserPatch, e: Env)
    requires SimStore(sa, sb, at) && FreshIn(sb, e)
    ensures SimStore(UpdateUser(sa, u, patch), UpdateUser(sb, u, patch), at) && FreshIn(UpdateUser(sb, u, patch), e)
  {
  }

  /** The body of the password change, up to the issue. */
  lemma SameReplacement(cfg: Config, sa: Store, sb: Store, at: Instant, u: Uuid, patch: UserPatch, who: Profile, e: Env)
    requires SimStore(sa, sb, at) && FreshIn(sb, e)
    ensures var ia := IssueTokens(cfg, DeleteByUserId(UpdateUser(sa, u, patch), u), who, e);
            var ib := IssueTokens(cfg, DeleteByUserId(UpdateUser(sb, u, patch), u), who, e);
            && ia.Issued? == ib.Issued?
            && (ia.Issued? ==> ia.tokens == ib.tokens && SimStore(ia.store, ib.store, at))
  {
    SameUpdate(sa, sb, at, u, patch, e);
    var ua, ub := UpdateUser(sa, u, patch), UpdateUser(sb, u, patch);
    SameRevocation(ua, ub, at, u);
    FreshAfterRevocation(ub, u, e);
    SameIssue(cfg, DeleteByUserId(ua, u), DeleteByUserId(ub, u), at, who, e);
  }

  /** The branch of ChangePassword that opens a transaction. */
  ghost predicate Replaces(c: Call, seen: Seen) {
    && c.ChangePassword? && seen.SeenUser? && seen.user.Some?
    && Matches(seen.user.value.row.password, c.current) && HashPassword(c.next).Some?
  }

  lemma SameChangeReplacing(cfg: Config, sa: Store, sb: Store, at: Instant, c: Call, e: Env, seen: Seen)
    requires SimStore(sa, sb, at) && FreshIn(sb, e) && Replaces(c, seen)
    ensures SameEffect(ActChangePassword(cfg, sa, c, e, seen), ActChangePassword(cfg, sb, c, e, seen), at)
  {
    var patch := UserPatch("", HashPassword(c.next), "");
    SameReplacement(cfg, sa, sb, at, c.userId, patch, ProfileOf(seen.user.value), e);
  }

  lemma SameChangeRefused(cfg: Config, sa: Store, sb: Store, at: Instant, c: Call, e: Env, seen: Seen)
    requires SimStore(sa, sb, at) && c.ChangePassword? && !Replaces(c, seen)
    ensures SameEffect(ActChangePassword(cfg, sa, c, e, seen), ActChangePassword(cfg, sb, c, e, seen), at)
  {
  }

  lemma SameListing(sa: Store, sb: Store, at: Instant, c: Call, e: Env, seen: Seen)
    requires SimStore(sa, sb, at) && c.ListSessions? && at <= e.clock.entry
    ensures SameEffect(ActListSessions(sa, c, e, seen), ActListSessions(sb, c, e, seen), at)
    ensures ActListSessions(sb, c, e, SeenTokens(sa.tokens)) == ActListSessions(sb, c, e, SeenTokens(sb.tokens))
  {
    assert ActiveRows(sa.tokens, c.userId, e.clock.entry) == ActiveRows(sb.tokens, c.userId, e.clock.entry);
  }

  lemma SameDeleteAccount(sa: Store, sb: Store, at: Instant, c: Call, e: Env, seen: Seen)
    requires SimStore(sa, sb, at) && c.DeleteAccount?
    ensures SameEffect(ActDeleteAccount(sa, c, e, seen), ActDeleteAccount(sb, c, e, seen), at)
  {
    SameRevocation(sa, sb, at, c.userId);
  }

  lemma SameAct(cfg: Config, sa: Store, sb: Store, at: Instant, c: Call, e: Env, seen: Seen)
    requires SimStore(sa, sb, at) && FreshIn(sb, e) && !c.Purge? && (c.ListSessions? ==> at <= e.clock.entry)
    ensures SameEffect(Act(cfg, sa, c, e, seen), Act(cfg, sb, c, e, seen), at)
  {
    match c
    case Register(_, _, _, _) => SameRegister(cfg, sa, sb, at, c, e, seen);
    case Login(_, _) => SameLogin(cfg, sa, sb, at, c, e, seen);
    case Refresh(_) =>
      if Rotates(c, e, seen) {
        SameRefreshRotating(cfg, sa, sb, at, c, e, seen);
      } else {
        SameRefreshRefused(cfg, sa, sb, at, c, e, seen);
      }
    case ChangePassword(_, _, _) =>
      if Replaces(c, seen) {
        SameChangeReplacing(cfg, sa, sb, at, c, e, seen);
      } else {
        SameChangeRefused(cfg, sa, sb, at, c, e, seen);
      }
    case DeleteAccount(_) => SameDeleteAccount(sa, sb, at, c, e, seen);
    case Revoke(u) => SameRevocation(sa, sb, at, u);
    case GetUser(_) =>
    case ListSessions(_, _, _) => SameListing(sa, sb, at, c, e, seen);
  }

  /** A refresh whose token has expired looks at no row; any other call looks at the same data. */
  lemma RefusedBeforeLooking(cfg: Config, s: Store, c: Call, e: Env, seen: Seen, seen': Seen)
    requires c.Refresh? && ValidateRefreshToken(c.presented, e.clock.entry).None?
    ensures Act(cfg, s, c, e, seen) == Act(cfg, s, c, e, seen')
  {
  }

  lemma NothingClashes(w: World, e: Env)
    requires RowsOk(w) && e.jti !in w.ids && e.rowId !in w.ids
    ensures FreshIn(w.store, e)
  {
    forall d | d in w.store.tokens ensures d.token.jti != e.jti && w.store.tokens[d].id != e.rowId {
      RowFact(w, d);
    }
  }

  /** Given what the call saw on the swept table, it does the same on the unswept one as with what it sees there. */
  lemma SameSight(cfg: Config, a: World, b: World, st: Step)
    requires Sim(a, b) && Enabled(a, st) && ExpireFirst(b.store, b.now)
    ensures Act(cfg, b.store, st.call, st.env, Look(a.store, st.call)) == Served(cfg, b, st)
  {
    var c, e := st.call, st.env;
    if c.ListSessions? {
      SameListing(a.store, b.store, a.now, c, e, NoRead);
    } else if !c.Refresh? {
      SameUsersSameLook(a.store, b.store, c);
    } else if ValidateRefreshToken(c.presented, e.clock.entry).Some? {
      ValidTokenSameRow(cfg, a, b, st);
    } else {
      RefusedBeforeLooking(cfg, b.store, c, e, Look(a.store, c), Look(b.store, c));
    }
  }

  lemma SameStep(cfg: Config, a: World, b: World, st: Step)
    requires Inv(b) && Sim(a, b) && Enabled(a, st) && ExpireFirst(b.store, b.now) && !st.call.Purge?
    ensures Enabled(b, st)
    ensures ReplyOf(cfg, a, st) == ReplyOf(cfg, b, st) && Sim(Next(cfg, a, st), Next(cfg, b, st))
  {
    NothingClashes(b, st.env);
    SameAct(cfg, a.store, b.store, a.now, st.call, st.env, Look(a.store, st.call));
    SameSight(cfg, a, b, st);
  }

  lemma SweepKeepsSim(cfg: Config, a: World, b: World, st: Step)
    requires Sim(a, b) && Enabled(a, st) && st.call.Purge?
    ensures Sim(Next(cfg, a, st), b)
  {
  }

  lemma {:induction false} SimulationHolds(cfg: Config, a: World, b: World, steps: seq<Step>)
    requires TtlsAgree(cfg) && Inv(b) && ExpireFirst(b.store, b.now) && Sim(a, b) && Possible(cfg, a, steps)
    ensures Possible(cfg, b, WithoutPurges(steps))
    ensures Replies(cfg, a, steps) == Replies(cfg, b, WithoutPurges(steps))
    ensures Sim(Final(cfg, a, steps), Final(cfg, b, WithoutPurges(steps)))
    decreases |steps|
  {
    if steps != [] {
      var a' := Next(cfg, a, steps[0]);
      var rest := WithoutPurges(steps[1..]);
      if steps[0].call.Purge? {
        SweepKeepsSim(cfg, a, b, steps[0]);
        SimulationHolds(cfg, a', b, steps[1..]);
        assert WithoutPurges(steps) == rest;
      } else {
        var b' := Next(cfg, b, steps[0]);
        SameStep(cfg, a, b, steps[0]);
        InvIsKept(cfg, b, steps[0]);
        TokensKeepExpiringFirst(cfg, b, steps[0]);
        SimulationHolds(cfg, a', b', steps[1..]);
        assert WithoutPurges(steps) == [steps[0]] + rest;
        assert ([steps[0]] + rest)[1..] == rest;
      }
    }
  }

  lemma SameLive(swept: Store, unswept: Store, at: Instant)
    requires SimStore(swept, unswept, at)
    ensures Live(swept, at) == Live(unswept, at)
  {
  }

  /** With lifetimes that agree, sweeps anywhere in a run change no reply and no live row. */
  lemma JanitorIsTransparent(cfg: Config, w: World, steps: seq<Step>)
    requires TtlsAgree(cfg) && Inv(w) && ExpireFirst(w.store, w.now) && Possible(cfg, w, steps)
    ensures Transparent(cfg, w, steps)
  {
    SimulationHolds(cfg, w, w, steps);
    var swept, unswept := Final(cfg, w, steps), Final(cfg, w, WithoutPurges(steps));
    SameLive(swept.store, unswept.store, swept.now);
  }

  // ----- A swept token ---------------------------------------------------

  lemma ExpiringFirstAfterStep(cfg: Config, ws: seq<World>, steps: seq<Step>, i: nat)
    requires TtlsAgree(cfg) && Run(cfg, ws, steps) && i < |steps| && ExpireFirst(ws[i].store, ws[i].now)
    ensures ExpireFirst(ws[i + 1].store, ws[i + 1].now)
  {
    assert Follows(cfg, ws, steps, i);
    TokensKeepExpiringFirst(cfg, ws[i], steps[i]);
  }

  lemma {:induction false} ExpiringFirstThroughout(cfg: Config, ws: seq<World>, steps: seq<Step>, i: nat)
    requires TtlsAgree(cfg) && Run(cfg, ws, steps) && ExpireFirst(ws[0].store, ws[0].now) && i < |ws|
    ensures ExpireFirst(ws[i].store, ws[i].now)
  {
    if i > 0 {
      ExpiringFirstThroughout(cfg, ws, steps, i - 1);
      ExpiringFirstAfterStep(cfg, ws, steps, i - 1);
    }
  }

  lemma {:induction false} TimePasses(cfg: Config, ws: seq<World>, steps: seq<Step>, i: nat, j: nat)
    requires Run(cfg, ws, steps) && i <= j < |ws|
    ensures ws[i].now <= ws[j].now
  {
    if i < j {
      TimePasses(cfg, ws, steps, i, j - 1);
      assert Follows(cfg, ws, steps, j - 1);
    }
  }

  /** A token whose row was swept is refused for its own expiry and never taken for a replay. */
  lemma SweptTokenFailsFirst(cfg: Config, ws: seq<World>, steps: seq<Step>, i: nat, j: nat, d: Digest)
    requires TtlsAgree(cfg) && Run(cfg, ws, steps) && ExpireFirst(ws[0].store, ws[0].now) && i < j < |steps|
    requires steps[i].call.Purge? && d in ws[i].store.tokens && d !in ws[i + 1].store.tokens
    requires steps[j].call == Refresh(Signed(d.token))
    ensures ReplyOf(cfg, ws[j], steps[j]) == Failed(Cancelled)
            || ReplyOf(cfg, ws[j], steps[j]) == Failed(InvalidRefreshToken)
    ensures Next(cfg, ws[j], steps[j]).store == ws[j].store
  {
    ExpiringFirstThroughout(cfg, ws, steps, i);
    TimePasses(cfg, ws, steps, i + 1, j);
    assert Follows(cfg, ws, steps, i) && Follows(cfg, ws, steps, j);
    assert Served(cfg, ws[j], steps[j]) == ActRefresh(cfg, ws[j].store, steps[j].call, steps[j].env,
                                                      Look(ws[j].store, steps[j].call));
  }

  // ----- Exactly when sweeping is invisible ------------------------------

  function SweepExposes(cfg: Config): (Instant, Instant) {
    var exp := (if cfg.jwtTtl > 0 then cfg.jwtTtl else 0) * SECOND;
    (exp - cfg.jwtTtl, exp)
  }

  /** Register just so that the token expires on a whole second, sweep one nanosecond before, then refresh. */
  function ExposingRun(cfg: Config): seq<Step> {
    var (minted, exp) := SweepExposes(cfg);
    [Step(Register(ADDRESS, OLD_PASSWORD, "Alice", 0), At(minted, 1)),
     Step(Purge, At(exp - 1, 2)),
     Step(Refresh(Signed(RefreshToken(0, 1, exp, 0))), At(exp - 1, 3))]
  }

  lemma RegisterFirst(cfg: Config, minted: Instant, exp: Instant)
    requires minted + cfg.jwtTtl == exp && exp % SECOND == 0
    ensures var st := Step(Register(ADDRESS, OLD_PASSWORD, "Alice", 0), At(minted, 1));
            var d := Hash(RefreshToken(0, 1, exp, 0));
            && !ReplyOf(cfg, EMPTY, st).Failed?
            && Next(cfg, EMPTY, st).store.tokens == map[d := TokenRow(1, 0, d, minted + cfg.rowTtl, minted)]
            && Next(cfg, EMPTY, st).now == minted && Next(cfg, EMPTY, st).ids == {1}
  {
    var st := Step(Register(ADDRESS, OLD_PASSWORD, "Alice", 0), At(minted, 1));
    assert Holders(EMPTY.store, ADDRESS) == {};
    assert Served(cfg, EMPTY, st) == ActRegister(cfg, EMPTY.store, st.call, st.env, Look(EMPTY.store, st.call));
    assert NumericDate(exp) == exp;
  }

  /** One step of each run function. */
  lemma Unfold(cfg: Config, w: World, st: Step, rest: seq<Step>)
    ensures Possible(cfg, w, [st] + rest) == (Enabled(w, st) && Possible(cfg, Next(cfg, w, st), rest))
    ensures Replies(cfg, w, [st] + rest)
            == (if st.call.Purge? then [] else [ReplyOf(cfg, w, st)]) + Replies(cfg, Next(cfg, w, st), rest)
    ensures WithoutPurges([st] + rest) == (if st.call.Purge? then [] else [st]) + WithoutPurges(rest)
  {
  }

  /** A run with a sweep in the middle, and the same run without it. */
  lemma SweepInTheMiddle(cfg: Config, w: World, first: Step, sweep: Step, last: Step)
    requires !first.call.Purge? && sweep.call.Purge? && !last.call.Purge?
    ensures var w1 := Next(cfg, w, first);
            var w2 := Next(cfg, w1, sweep);
            var steps := [first, sweep, last];
            && (Possible(cfg, w, steps) <==> Enabled(w, first) && Enabled(w1, sweep) && Enabled(w2, last))
            && Replies(cfg, w, steps) == [ReplyOf(cfg, w, first), ReplyOf(cfg, w2, last)]
            && Replies(cfg, w, WithoutPurges(steps)) == [ReplyOf(cfg, w, first), ReplyOf(cfg, w1, last)]
  {
    var w1 := Next(cfg, w, first);
    var w2 := Next(cfg, w1, sweep);
    var end := [last] + [];
    assert [first, sweep, last] == [first] + ([sweep] + end);
    Unfold(cfg, w, first, [sweep] + end);
    Unfold(cfg, w1, sweep, end);
    Unfold(cfg, w2, last, []);
    Unfold(cfg, w, first, end);
    Unfold(cfg, w1, last, []);
    assert WithoutPurges([first, sweep, last]) == [first] + end;
  }

  /** On the table of the registration the last step finds an expired row, after the sweep it finds none. */
  lemma ExposedReplies(cfg: Config)
    requires !TtlsAgree(cfg)
    ensures var steps := ExposingRun(cfg);
            var w1 := Next(cfg, EMPTY, steps[0]);
            var w2 := Next(cfg, w1, steps[1]);
            && Enabled(EMPTY, steps[0]) && Enabled(w1, steps[1]) && Enabled(w2, steps[2])
            && ReplyOf(cfg, w1, steps[2]) == Failed(RefreshTokenExpired)
            && ReplyOf(cfg, w2, steps[2]) == Failed(RefreshTokenRevoked)
  {
    var (minted, exp) := SweepExposes(cfg);
    var steps := ExposingRun(cfg);
    assert minted >= 0;
    RegisterFirst(cfg, minted, exp);
    var w1 := Next(cfg, EMPTY, steps[0]);
    var w2 := Next(cfg, w1, steps[1]);
    assert w2.store.tokens == map[];
    var c, e := steps[2].call, steps[2].env;
    assert Served(cfg, w2, steps[2]) == ActRefresh(cfg, w2.store, c, e, Look(w2.store, c));
    assert Served(cfg, w1, steps[2]) == ActRefresh(cfg, w1.store, c, e, Look(w1.store, c));
  }

  /**
   When the signed token outlives its row by more than a nanosecond, a sweep turns
   an expired session into a theft alarm.
   */
  lemma SweepCanBeSeen(cfg: Config)
    requires !TtlsAgree(cfg)
    ensures Possible(cfg, EMPTY, ExposingRun(cfg)) && !Transparent(cfg, EMPTY, ExposingRun(cfg))
  {
    var steps := ExposingRun(cfg);
    ExposedReplies(cfg);
    SweepInTheMiddle(cfg, EMPTY, steps[0], steps[1], steps[2]);
    assert steps == [steps[0], steps[1], steps[2]];
    assert Replies(cfg, EMPTY, steps)[1] != Replies(cfg, EMPTY, WithoutPurges(steps))[1];
  }

  /** Sweeping is invisible in every run from the empty tables if and only if the lifetimes agree. */
  lemma TransparencyIsExact(cfg: Config)
    ensures (forall steps :: Possible(cfg, EMPTY, steps) ==> Transparent(cfg, EMPTY, steps)) <==> TtlsAgree(cfg)
  {
    EmptyTablesAreFine();
    if TtlsAgree(cfg) {
      forall steps | Possible(cfg, EMPTY, steps) ensures Transparent(cfg, EMPTY, steps) {
        JanitorIsTransparent(cfg, EMPTY, steps);
      }
    } else {
      SweepCanBeSeen(cfg);
    }
  }
}
