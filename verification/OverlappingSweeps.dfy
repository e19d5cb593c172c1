/**
 Sweeps that overlap other calls.

 A run is compared with the run in which its sweeps do nothing. The two answer
 every call alike exactly as long as no refresh whose token was valid at its own
 clock reading looks for its row after a sweep took it. When lifetimes agree, that
 takes a sweep that entered after the refresh read its clock. A listing can lose
 rows that were live at its reading in the same way, from its total or its page.
 */
module OverlappingSweeps {
  import opened Wrappers
  import opened Entities
  import opened Credentials
  import opened Listing
  import opened Protocol
  import opened Frames
  import opened Interleaving
  import Decisions
  import Janitor

  // ----- The run without its sweeps ---------------------------------------

  ghost predicate IsSweep(w: World, ev: Event) {
    match ev
    case Begin(_, call, _) => call.Purge?
    case End(id, _) => id in w.pending && w.pending[id].call.Purge?
  }

  ghost predicate UnsweptStep(cfg: Config, ws: seq<World>, evs: seq<Event>, us: seq<World>, i: nat)
    requires i < |evs| && i < |ws| && i + 1 < |us|
  {
    if IsSweep(ws[i], evs[i]) then us[i + 1] == us[i]
    else Allowed(us[i], evs[i]) && us[i + 1] == After(cfg, us[i], evs[i], i)
  }

  /** The worlds us are those of the same events with the sweeps left out: where one stands, nothing happens. */
  ghost predicate Unswept(cfg: Config, ws: seq<World>, evs: seq<Event>, us: seq<World>) {
    && |us| == |ws| == |evs| + 1 && us[0] == ws[0]
    && forall i :: 0 <= i < |evs| ==> UnsweptStep(cfg, ws, evs, us, i)
  }

  /** The same calls are in flight, but for the sweeps. */
  ghost predicate SameCalls(w: World, u: World) {
    && (forall id :: id in u.pending <==> id in w.pending && !w.pending[id].call.Purge?)
    && (forall id :: id in u.pending ==> u.pending[id] == w.pending[id].(seen := u.pending[id].seen))
    && (forall id :: id in w.pending ==> w.pending[id].at <= w.now)
    && u.now <= w.now && u.ids <= w.ids && RowsOld(u)
  }

  lemma RowsStayOldAfter(cfg: Config, w: World, ev: Event, i: nat)
    requires RowsOld(w) && Allowed(w, ev)
    ensures RowsOld(After(cfg, w, ev, i))
  {
    if ev.End? {
      ActFrame(cfg, w.store, w.pending[ev.id].call, ev.env, w.pending[ev.id].seen);
    }
  }

  lemma SameCallsAfter(cfg: Config, w: World, u: World, ev: Event, i: nat)
    requires SameCalls(w, u) && Allowed(w, ev)
    ensures if IsSweep(w, ev) then SameCalls(After(cfg, w, ev, i), u)
            else Allowed(u, ev) && SameCalls(After(cfg, w, ev, i), After(cfg, u, ev, i))
  {
    if !IsSweep(w, ev) {
      RowsStayOldAfter(cfg, u, ev, i);
    }
  }

  lemma SameCallsAfterEvent(cfg: Config, ws: seq<World>, evs: seq<Event>, us: seq<World>, i: nat)
    requires Trace(cfg, ws, evs) && Unswept(cfg, ws, evs, us) && i < |evs| && SameCalls(ws[i], us[i])
    ensures SameCalls(ws[i + 1], us[i + 1])
  {
    assert Follows(cfg, ws, evs, i) && UnsweptStep(cfg, ws, evs, us, i);
    SameCallsAfter(cfg, ws[i], us[i], evs[i], i);
  }

  lemma {:induction false} SameCallsThroughout(cfg: Config, ws: seq<World>, evs: seq<Event>, us: seq<World>, i: nat)
    requires Trace(cfg, ws, evs) && Unswept(cfg, ws, evs, us) && i < |ws|
    ensures SameCalls(ws[i], us[i])
  {
    if i > 0 {
      SameCallsThroughout(cfg, ws, evs, us, i - 1);
      SameCallsAfterEvent(cfg, ws, evs, us, i - 1);
    }
  }

  lemma OneEventMore(cfg: Config, ws: seq<World>, evs: seq<Event>, n: nat, before: seq<World>) returns (us: seq<World>)
    requires Trace(cfg, ws, evs) && n < |evs| && |before| == n + 1 && SameCalls(ws[n], before[n])
    ensures |us| == n + 2 && us[..n + 1] == before
    ensures UnsweptStep(cfg, ws, evs, us, n) && SameCalls(ws[n + 1], us[n + 1])
  {
    assert Follows(cfg, ws, evs, n);
    SameCallsAfter(cfg, ws[n], before[n], evs[n], n);
    us := before + [if IsSweep(ws[n], evs[n]) then before[n] else After(cfg, before[n], evs[n], n)];
  }

  lemma {:induction false} UnsweptUpTo(cfg: Config, ws: seq<World>, evs: seq<Event>, n: nat) returns (us: seq<World>)
    requires Trace(cfg, ws, evs) && n <= |evs|
    ensures |us| == n + 1 && us[0] == ws[0] && SameCalls(ws[n], us[n])
    ensures forall i :: 0 <= i < n ==> UnsweptStep(cfg, ws, evs, us, i)
  {
    if n == 0 {
      us := [ws[0]];
    } else {
      var before := UnsweptUpTo(cfg, ws, evs, n - 1);
      us := OneEventMore(cfg, ws, evs, n - 1, before);
      forall i | 0 <= i < n - 1 ensures UnsweptStep(cfg, ws, evs, us, i) {
        assert UnsweptStep(cfg, ws, evs, before, i);
      }
    }
  }

  /** Every run has its run without sweeps. */
  lemma UnsweptExists(cfg: Config, ws: seq<World>, evs: seq<Event>) returns (us: seq<World>)
    requires Trace(cfg, ws, evs)
    ensures Unswept(cfg, ws, evs, us)
  {
    us := UnsweptUpTo(cfg, ws, evs, |evs|);
  }

  /** There, too, a call in flight carries what its read saw in the world it began in. */
  lemma {:induction false} UnsweptSeen(cfg: Config, ws: seq<World>, evs: seq<Event>, us: seq<World>, j: nat, id: nat)
    requires Trace(cfg, ws, evs) && Unswept(cfg, ws, evs, us) && j < |us| && id in us[j].pending
    ensures var q := us[j].pending[id];
            q.begun < j && q.seen == Look(us[q.begun].store, q.call)
  {
    if j > 0 {
      assert UnsweptStep(cfg, ws, evs, us, j - 1);
      if id in us[j - 1].pending && us[j - 1].pending[id] == us[j].pending[id] {
        UnsweptSeen(cfg, ws, evs, us, j - 1, id);
      }
    }
  }

  // ----- Exactly when the two runs answer alike ----------------------------

  /** Event m ends a call other than a sweep. */
  ghost predicate Answers(ws: seq<World>, evs: seq<Event>, m: nat)
    requires |ws| == |evs| + 1
  {
    m < |evs| && evs[m].End? && evs[m].id in ws[m].pending && !IsSweep(ws[m], evs[m])
  }

  /**
   Event m ends a refresh that validated its token, and whose lookup worked and
   missed the row only because a sweep had taken it.
   */
  ghost predicate Robbed(ws: seq<World>, evs: seq<Event>, us: seq<World>, m: nat)
    requires |us| == |ws| == |evs| + 1
  {
    && Answers(ws, evs, m)
    && var p, f := ws[m].pending[evs[m].id], evs[m].env.faults;
    && p.call.Refresh? && ValidateRefreshToken(p.call.presented, p.at).Some? && !f.cancelled && !f.lookup
    && p.begun < m && Hash(p.call.presented.token) in us[p.begun].store.tokens
    && Hash(p.call.presented.token) !in ws[p.begun].store.tokens
  }

  ghost predicate SameAnswer(cfg: Config, ws: seq<World>, evs: seq<Event>, us: seq<World>, m: nat)
    requires |us| == |ws| == |evs| + 1 && Answers(ws, evs, m)
  {
    && evs[m].id in us[m].pending
    && Ended(cfg, ws[m], evs[m]).reply == Ended(cfg, us[m], evs[m]).reply
  }

  /** What a call saw on the two tables makes the same difference to it. */
  lemma SameSight(cfg: Config, s: Store, c: Call, e: Env, sa: Store, sb: Store, at: Instant)
    requires Janitor.SimStore(sa, sb, at) && !c.ListSessions?
    requires c.Refresh? && ValidateRefreshToken(c.presented, e.clock.entry).Some? && !e.faults.cancelled
             && !e.faults.lookup
             ==> (Hash(c.presented.token) in sb.tokens ==> Hash(c.presented.token) in sa.tokens)
    ensures Act(cfg, s, c, e, Look(sa, c)) == Act(cfg, s, c, e, Look(sb, c))
  {
    if c.Refresh? {
      assert Act(cfg, s, c, e, Look(sa, c)) == ActRefresh(cfg, s, c, e, Look(sa, c));
      assert Act(cfg, s, c, e, Look(sb, c)) == ActRefresh(cfg, s, c, e, Look(sb, c));
    } else {
      Janitor.SameUsersSameLook(sa, sb, c);
    }
  }

  lemma NothingClashes(w: World, u: World, e: Env)
    requires SameCalls(w, u) && e.jti !in w.ids && e.rowId !in w.ids
    ensures Janitor.FreshIn(u.store, e)
  {
  }

  /** A call that is not robbed is answered alike, and keeps the tables alike. */
  lemma AlikeUnlessRobbed(cfg: Config, ws: seq<World>, evs: seq<Event>, us: seq<World>, m: nat)
    requires Trace(cfg, ws, evs) && Unswept(cfg, ws, evs, us) && Answers(ws, evs, m) && !Robbed(ws, evs, us, m)
    requires forall i :: 0 <= i <= m ==> Janitor.SimStore(ws[i].store, us[i].store, ws[i].now)
    ensures evs[m].id in us[m].pending
    ensures Janitor.SimStore(Ended(cfg, ws[m], evs[m]).store, Ended(cfg, us[m], evs[m]).store, ws[m].now)
    ensures !ws[m].pending[evs[m].id].call.ListSessions? ==> SameAnswer(cfg, ws, evs, us, m)
  {
    var id, e := evs[m].id, evs[m].env;
    SameCallsThroughout(cfg, ws, evs, us, m);
    var p, q := ws[m].pending[id], us[m].pending[id];
    assert Follows(cfg, ws, evs, m);
    SeenWhenBegun(cfg, ws, evs, m, id);
    UnsweptSeen(cfg, ws, evs, us, m, id);
    if p.call.ListSessions? {
      assert Ended(cfg, ws[m], evs[m]) == ActListSessions(ws[m].store, p.call, e, p.seen);
      assert Ended(cfg, us[m], evs[m]) == ActListSessions(us[m].store, q.call, e, q.seen);
    } else {
      NothingClashes(ws[m], us[m], e);
      Janitor.SameAct(cfg, ws[m].store, us[m].store, ws[m].now, p.call, e, p.seen);
      SameSight(cfg, us[m].store, p.call, e, ws[p.begun].store, us[p.begun].store, ws[p.begun].now);
    }
  }

  lemma TablesAfterSweep(cfg: Config, w: World, u: World, ev: Event, i: nat)
    requires SameCalls(w, u) && Allowed(w, ev) && IsSweep(w, ev) && Janitor.SimStore(w.store, u.store, w.now)
    ensures Janitor.SimStore(After(cfg, w, ev, i).store, u.store, After(cfg, w, ev, i).now)
  {
    if ev.End? {
      assert Ended(cfg, w, ev) == ActPurge(w.store, ev.env);
    }
  }

  lemma TablesAfterEvent(cfg: Config, ws: seq<World>, evs: seq<Event>, us: seq<World>, m: nat)
    requires Trace(cfg, ws, evs) && Unswept(cfg, ws, evs, us) && m < |evs| && !Robbed(ws, evs, us, m)
    requires forall i :: 0 <= i <= m ==> Janitor.SimStore(ws[i].store, us[i].store, ws[i].now)
    ensures Janitor.SimStore(ws[m + 1].store, us[m + 1].store, ws[m + 1].now)
  {
    assert Follows(cfg, ws, evs, m) && UnsweptStep(cfg, ws, evs, us, m);
    SameCallsThroughout(cfg, ws, evs, us, m);
    if IsSweep(ws[m], evs[m]) {
      TablesAfterSweep(cfg, ws[m], us[m], evs[m], m);
    } else if evs[m].End? {
      AlikeUnlessRobbed(cfg, ws, evs, us, m);
    }
  }

  /** As long as nobody is robbed, the tables differ by rows that expired before the latest reading. */
  lemma {:induction false} TablesAgree(cfg: Config, ws: seq<World>, evs: seq<Event>, us: seq<World>, n: nat)
    requires Trace(cfg, ws, evs) && Unswept(cfg, ws, evs, us) && n < |ws|
    requires forall m: nat :: m < n ==> !Robbed(ws, evs, us, m)
    ensures forall i :: 0 <= i <= n ==> Janitor.SimStore(ws[i].store, us[i].store, ws[i].now)
  {
    if n > 0 {
      TablesAgree(cfg, ws, evs, us, n - 1);
      TablesAfterEvent(cfg, ws, evs, us, n - 1);
    }
  }

  /** A robbed refresh raises the alarm and ends every session of its user; without the sweeps there is no alarm. */
  lemma RobbedRaisesTheAlarm(cfg: Config, ws: seq<World>, evs: seq<Event>, us: seq<World>, m: nat)
    requires Trace(cfg, ws, evs) && Unswept(cfg, ws, evs, us) && m < |evs| && Robbed(ws, evs, us, m)
    ensures evs[m].id in us[m].pending
    ensures Ended(cfg, ws[m], evs[m]).reply == Failed(RefreshTokenRevoked)
    ensures evs[m].env.faults.revoke.Fine? ==>
              !HasRow(ws[m + 1].store, ws[m].pending[evs[m].id].call.presented.token.userId)
    ensures Ended(cfg, us[m], evs[m]).reply != Failed(RefreshTokenRevoked)
  {
    var id, e := evs[m].id, evs[m].env;
    SameCallsThroughout(cfg, ws, evs, us, m);
    SeenWhenBegun(cfg, ws, evs, m, id);
    UnsweptSeen(cfg, ws, evs, us, m, id);
    assert Follows(cfg, ws, evs, m);
    var p, q := ws[m].pending[id], us[m].pending[id];
    assert Ended(cfg, ws[m], evs[m]) == ActRefresh(cfg, ws[m].store, p.call, e, p.seen);
    assert Ended(cfg, us[m], evs[m]) == ActRefresh(cfg, us[m].store, q.call, e, q.seen);
  }

  /**
   Whatever the lifetimes and however the calls overlap: leaving the sweeps out of a
   run changes no answer but those of listings, up to any event, if and only if no
   refresh up to that event is robbed of its row by a sweep.
   */
  lemma SweepsAreInvisibleExactly(cfg: Config, ws: seq<World>, evs: seq<Event>, us: seq<World>, n: nat)
    requires Trace(cfg, ws, evs) && Unswept(cfg, ws, evs, us) && n <= |evs|
    ensures (forall m: nat :: m < n && Answers(ws, evs, m) && !ws[m].pending[evs[m].id].call.ListSessions?
               ==> SameAnswer(cfg, ws, evs, us, m))
            <==> (forall m: nat :: m < n ==> !Robbed(ws, evs, us, m))
  {
    if m: nat :| m < n && Robbed(ws, evs, us, m) {
      RobbedRaisesTheAlarm(cfg, ws, evs, us, m);
      assert !SameAnswer(cfg, ws, evs, us, m);
    } else {
      TablesAgree(cfg, ws, evs, us, n);
      forall m: nat | m < n && Answers(ws, evs, m) && !ws[m].pending[evs[m].id].call.ListSessions?
        ensures SameAnswer(cfg, ws, evs, us, m)
      {
        AlikeUnlessRobbed(cfg, ws, evs, us, m);
      }
    }
  }

  // ----- The sweep that did it --------------------------------------------

  /** Two halves of a call that end alike keep or drop a row alike. */
  lemma KeptAlike(cfg: Config, sa: Store, sb: Store, c: Call, e: Env, a: Seen, b: Seen, d: Digest)
    requires d in sa.tokens && d in sb.tokens && sa.tokens[d] == sb.tokens[d] && sa.tokens[d].userId == d.token.userId
    requires !c.Purge? && d.token.jti != e.jti
    requires c.ListSessions? || Act(cfg, sa, c, e, a).reply == Act(cfg, sb, c, e, b).reply
    ensures d in Act(cfg, sa, c, e, a).store.tokens <==> d in Act(cfg, sb, c, e, b).store.tokens
  {
    match c
    case Register(_, _, _, _) =>
      Decisions.SignInDropsNothing(cfg, sa, c, e, a, d);
      Decisions.SignInDropsNothing(cfg, sb, c, e, b, d);
    case Login(_, _) =>
      Decisions.SignInDropsNothing(cfg, sa, c, e, a, d);
      Decisions.SignInDropsNothing(cfg, sb, c, e, b, d);
    case Refresh(_) =>
      Decisions.RefreshDrops(cfg, sa, c, e, a, d);
      Decisions.RefreshDrops(cfg, sb, c, e, b, d);
    case ChangePassword(_, _, _) =>
      Decisions.ChangePasswordDrops(cfg, sa, c, e, a, d);
      Decisions.ChangePasswordDrops(cfg, sb, c, e, b, d);
    case DeleteAccount(_) =>
      assert Act(cfg, sa, c, e, a) == ActDeleteAccount(sa, c, e, a);
      assert Act(cfg, sb, c, e, b) == ActDeleteAccount(sb, c, e, b);
    case Revoke(_) =>
    case GetUser(_) =>
    case ListSessions(_, _, _) =>
  }

  /** A row a call mints is there however the call was answered in the other run, if it was answered alike. */
  lemma MintedAlike(cfg: Config, sa: Store, sb: Store, c: Call, e: Env, a: Seen, b: Seen, d: Digest)
    requires d !in sb.tokens && d in Act(cfg, sb, c, e, b).store.tokens
    requires c.ListSessions? || Act(cfg, sa, c, e, a).reply == Act(cfg, sb, c, e, b).reply
    ensures d in Act(cfg, sa, c, e, a).store.tokens
  {
    ActFrame(cfg, sa, c, e, a);
    ActFrame(cfg, sb, c, e, b);
  }

  /** No call but a sweep makes a row missing that was not missing before. */
  lemma OnlySweepsTake(cfg: Config, ws: seq<World>, evs: seq<Event>, us: seq<World>, m: nat, d: Digest)
    requires Trace(cfg, ws, evs) && Unswept(cfg, ws, evs, us) && Answers(ws, evs, m)
    requires forall k: nat :: k <= m ==> !Robbed(ws, evs, us, k)
    requires d in us[m + 1].store.tokens && (d in us[m].store.tokens ==> d in ws[m].store.tokens)
    ensures d in ws[m + 1].store.tokens
  {
    TablesAgree(cfg, ws, evs, us, m);
    AlikeUnlessRobbed(cfg, ws, evs, us, m);
    SameCallsThroughout(cfg, ws, evs, us, m);
    assert Follows(cfg, ws, evs, m) && UnsweptStep(cfg, ws, evs, us, m);
    var p, q, e := ws[m].pending[evs[m].id], us[m].pending[evs[m].id], evs[m].env;
    if d in us[m].store.tokens {
      KeptAlike(cfg, ws[m].store, us[m].store, p.call, e, p.seen, q.seen, d);
    } else {
      MintedAlike(cfg, ws[m].store, us[m].store, p.call, e, p.seen, q.seen, d);
    }
  }

  lemma RowUnaltered(cfg: Config, u: World, ev: Event, i: nat, d: Digest)
    requires RowsOld(u) && Allowed(u, ev) && d in u.store.tokens && d in After(cfg, u, ev, i).store.tokens
    ensures After(cfg, u, ev, i).store.tokens[d] == u.store.tokens[d]
  {
    if ev.End? {
      ActFrame(cfg, u.store, u.pending[ev.id].call, ev.env, u.pending[ev.id].seen);
    }
  }

  /** Event k is a sweep that takes the row, which expired before the sweep entered. */
  ghost predicate Takes(ws: seq<World>, evs: seq<Event>, k: nat, d: Digest)
    requires |ws| == |evs| + 1
  {
    && k < |evs| && evs[k].End? && IsSweep(ws[k], evs[k])
    && d in ws[k].store.tokens && d !in ws[k + 1].store.tokens
    && ws[k].store.tokens[d].expiresAt < evs[k].env.clock.entry
  }

  lemma SweepTakes(cfg: Config, ws: seq<World>, evs: seq<Event>, k: nat, d: Digest)
    requires Trace(cfg, ws, evs) && k < |evs| && IsSweep(ws[k], evs[k])
    requires d in ws[k].store.tokens && d !in ws[k + 1].store.tokens
    ensures Takes(ws, evs, k, d)
  {
    assert Follows(cfg, ws, evs, k);
    if evs[k].End? {
      assert Ended(cfg, ws[k], evs[k]) == ActPurge(ws[k].store, evs[k].env);
    }
  }

  /** A row that is only missing because of the sweeps was taken by one of them. */
  lemma {:induction false} MissingWasTaken(cfg: Config, ws: seq<World>, evs: seq<Event>, us: seq<World>, b: nat,
                                           d: Digest)
    returns (k: nat)
    requires Trace(cfg, ws, evs) && Unswept(cfg, ws, evs, us) && b < |ws|
    requires forall m: nat :: m < b ==> !Robbed(ws, evs, us, m)
    requires d in us[b].store.tokens && d !in ws[b].store.tokens
    ensures k < b && Takes(ws, evs, k, d) && us[b].store.tokens[d] == ws[k].store.tokens[d]
  {
    var m := b - 1;
    assert Follows(cfg, ws, evs, m) && UnsweptStep(cfg, ws, evs, us, m);
    if d in us[m].store.tokens && d !in ws[m].store.tokens {
      k := MissingWasTaken(cfg, ws, evs, us, m, d);
      if !IsSweep(ws[m], evs[m]) {
        SameCallsThroughout(cfg, ws, evs, us, m);
        RowUnaltered(cfg, us[m], evs[m], m, d);
      }
    } else {
      if Answers(ws, evs, m) {
        OnlySweepsTake(cfg, ws, evs, us, m, d);
      }
      k := m;
      TablesAgree(cfg, ws, evs, us, m);
      SweepTakes(cfg, ws, evs, m, d);
    }
  }

  /**
   The first refresh to be robbed was robbed by a sweep that committed before the
   lookup; and if its token gives up no later than a nanosecond after its row, that
   sweep entered after the refresh read its clock.
   */
  lemma RobbedInBetween(cfg: Config, ws: seq<World>, evs: seq<Event>, us: seq<World>, m: nat) returns (k: nat)
    requires Trace(cfg, ws, evs) && Unswept(cfg, ws, evs, us) && m < |evs|
    requires Robbed(ws, evs, us, m) && forall k: nat :: k < m ==> !Robbed(ws, evs, us, k)
    ensures var p := ws[m].pending[evs[m].id];
            var d := Hash(p.call.presented.token);
            && k < p.begun < m && Takes(ws, evs, k, d)
            && (d.token.exp <= ws[k].store.tokens[d].expiresAt + 1 ==> p.at < evs[k].env.clock.entry)
  {
    var p := ws[m].pending[evs[m].id];
    k := MissingWasTaken(cfg, ws, evs, us, p.begun, Hash(p.call.presented.token));
  }

  // ----- When lifetimes agree ---------------------------------------------

  lemma ExpireFirstAfter(cfg: Config, w: World, ev: Event, i: nat)
    requires Janitor.TtlsAgree(cfg) && Janitor.ExpireFirst(w.store, w.now) && Allowed(w, ev)
    ensures Janitor.ExpireFirst(After(cfg, w, ev, i).store, After(cfg, w, ev, i).now)
  {
    if ev.End? {
      var after := After(cfg, w, ev, i);
      ActFrame(cfg, w.store, w.pending[ev.id].call, ev.env, w.pending[ev.id].seen);
      forall d | d in after.store.tokens
        ensures d.token.exp <= after.store.tokens[d].expiresAt + 1 || d.token.exp <= after.now
      {
        if !(d in w.store.tokens && after.store.tokens[d] == w.store.tokens[d]) {
          Janitor.MintedExpiresFirst(cfg, ev.env, Ended(cfg, w, ev).reply, d, after.store.tokens[d]);
        }
      }
    }
  }

  lemma ExpireFirstAfterEvent(cfg: Config, ws: seq<World>, evs: seq<Event>, us: seq<World>, i: nat)
    requires Janitor.TtlsAgree(cfg) && Unswept(cfg, ws, evs, us) && i < |evs|
    requires Janitor.ExpireFirst(us[i].store, us[i].now)
    ensures Janitor.ExpireFirst(us[i + 1].store, us[i + 1].now)
  {
    assert UnsweptStep(cfg, ws, evs, us, i);
    if !IsSweep(ws[i], evs[i]) {
      ExpireFirstAfter(cfg, us[i], evs[i], i);
    }
  }

  lemma {:induction false} ExpireFirstThroughout(cfg: Config, ws: seq<World>, evs: seq<Event>, us: seq<World>, i: nat)
    requires Janitor.TtlsAgree(cfg) && Unswept(cfg, ws, evs, us) && i < |us|
    requires Janitor.ExpireFirst(us[0].store, us[0].now)
    ensures Janitor.ExpireFirst(us[i].store, us[i].now)
  {
    if i > 0 {
      ExpireFirstThroughout(cfg, ws, evs, us, i - 1);
      ExpireFirstAfterEvent(cfg, ws, evs, us, i - 1);
    }
  }

  /** When lifetimes agree, the first refresh to be robbed looked its row up after a later time had been read. */
  lemma RobbedLate(cfg: Config, ws: seq<World>, evs: seq<Event>, us: seq<World>, m: nat)
    requires Janitor.TtlsAgree(cfg) && Trace(cfg, ws, evs) && Unswept(cfg, ws, evs, us) && m < |evs|
    requires Janitor.ExpireFirst(ws[0].store, ws[0].now)
    requires Robbed(ws, evs, us, m) && forall k: nat :: k < m ==> !Robbed(ws, evs, us, k)
    ensures var p := ws[m].pending[evs[m].id];
            p.begun < m && p.at < ws[p.begun].now
  {
    var p := ws[m].pending[evs[m].id];
    var d := Hash(p.call.presented.token);
    TablesAgree(cfg, ws, evs, us, p.begun);
    SameCallsThroughout(cfg, ws, evs, us, p.begun);
    ExpireFirstThroughout(cfg, ws, evs, us, p.begun);
    assert us[p.begun].store.tokens[d].expiresAt < ws[p.begun].now;
  }

  /** So nobody is robbed in a run in which no later time has been read than a call's own when it makes its lookup. */
  lemma PromptCallsSeeNoSweep(cfg: Config, ws: seq<World>, evs: seq<Event>, us: seq<World>, n: nat)
    requires Janitor.TtlsAgree(cfg) && Trace(cfg, ws, evs) && Unswept(cfg, ws, evs, us) && n <= |evs|
    requires Janitor.ExpireFirst(ws[0].store, ws[0].now)
    requires forall i :: 0 <= i < n && evs[i].Begin? ==> ws[i].now <= evs[i].at
    ensures forall m: nat :: m < n ==> !Robbed(ws, evs, us, m)
    decreases n
  {
    if n > 0 {
      PromptCallsSeeNoSweep(cfg, ws, evs, us, n - 1);
      if Robbed(ws, evs, us, n - 1) {
        RobbedLate(cfg, ws, evs, us, n - 1);
        SeenWhenBegun(cfg, ws, evs, n - 1, evs[n - 1].id);
        assert false;
      }
    }
  }

  // ----- Listings ---------------------------------------------------------

  /** A listing that works and that nobody was robbed before. */
  ghost predicate Lists(ws: seq<World>, evs: seq<Event>, us: seq<World>, m: nat)
    requires |us| == |ws| == |evs| + 1
  {
    && Answers(ws, evs, m) && ws[m].pending[evs[m].id].call.ListSessions?
    && !evs[m].env.faults.cancelled && !evs[m].env.faults.lookup
    && forall k: nat :: k < m ==> !Robbed(ws, evs, us, k)
  }

  /** No row of the user that is live at the reading has been swept. */
  ghost predicate NoneSwept(swept: Store, unswept: Store, u: Uuid, entry: Instant) {
    forall d :: d in unswept.tokens && Active(unswept.tokens[d], u, entry) ==> d in swept.tokens
  }

  lemma SameActiveExactly(swept: Store, unswept: Store, now: Instant, u: Uuid, entry: Instant)
    requires Janitor.SimStore(swept, unswept, now) && forall d :: d in unswept.tokens ==> unswept.tokens[d].digest == d
    ensures ActiveRows(swept.tokens, u, entry) <= ActiveRows(unswept.tokens, u, entry)
    ensures ActiveRows(swept.tokens, u, entry) == ActiveRows(unswept.tokens, u, entry)
            <==> NoneSwept(swept, unswept, u, entry)
  {
    var a, b := ActiveRows(swept.tokens, u, entry), ActiveRows(unswept.tokens, u, entry);
    if d :| d in unswept.tokens && Active(unswept.tokens[d], u, entry) && d !in swept.tokens {
      assert unswept.tokens[d] in b && unswept.tokens[d] !in a;
    } else {
      assert a == b;
    }
  }

  lemma SubsetOfSameSize<T>(a: set<T>, b: set<T>)
    requires a <= b
    ensures |a| == |b| <==> a == b
  {
    assert |b| == |a| + |b - a|;
    assert b == a + (b - a);
  }

  /** The total is the same with and without the sweeps exactly when no live row was swept before the count. */
  lemma TotalsAgreeExactly(cfg: Config, ws: seq<World>, evs: seq<Event>, us: seq<World>, m: nat)
    requires Trace(cfg, ws, evs) && Unswept(cfg, ws, evs, us) && Lists(ws, evs, us, m)
    ensures evs[m].id in us[m].pending
    ensures Ended(cfg, ws[m], evs[m]).reply.Listed? && Ended(cfg, us[m], evs[m]).reply.Listed?
    ensures var p := ws[m].pending[evs[m].id];
            && p.begun < m
            && (Ended(cfg, ws[m], evs[m]).reply.total == Ended(cfg, us[m], evs[m]).reply.total
                <==> NoneSwept(ws[p.begun].store, us[p.begun].store, p.call.userId, p.at))
  {
    var id, e := evs[m].id, evs[m].env;
    SameCallsThroughout(cfg, ws, evs, us, m);
    SeenWhenBegun(cfg, ws, evs, m, id);
    UnsweptSeen(cfg, ws, evs, us, m, id);
    assert Follows(cfg, ws, evs, m);
    var p, q := ws[m].pending[id], us[m].pending[id];
    var a, b := ws[p.begun].store, us[p.begun].store;
    assert Ended(cfg, ws[m], evs[m]) == ActListSessions(ws[m].store, p.call, e, SeenTokens(a.tokens));
    assert Ended(cfg, us[m], evs[m]) == ActListSessions(us[m].store, q.call, e, SeenTokens(b.tokens));
    TablesAgree(cfg, ws, evs, us, p.begun);
    SameCallsThroughout(cfg, ws, evs, us, p.begun);
    SameActiveExactly(a, b, ws[p.begun].now, p.call.userId, p.at);
    SubsetOfSameSize(ActiveRows(a.tokens, p.call.userId, p.at), ActiveRows(b.tokens, p.call.userId, p.at));
  }

  /** Every page agrees exactly when no row that is live at the listing's own reading has been swept. */
  lemma PagesAgreeExactly(swept: Store, unswept: Store, now: Instant, u: Uuid, entry: Instant)
    requires Janitor.SimStore(swept, unswept, now) && forall d :: d in unswept.tokens ==> unswept.tokens[d].digest == d
    ensures (forall limit: nat, offset: int ::
               ListActive(swept.tokens, u, entry, limit, offset) == ListActive(unswept.tokens, u, entry, limit, offset))
            <==> NoneSwept(swept, unswept, u, entry)
  {
    var a, b := ActiveRows(swept.tokens, u, entry), ActiveRows(unswept.tokens, u, entry);
    SameActiveExactly(swept, unswept, now, u, entry);
    if a != b {
      SortedHasAll(a);
      SortedHasAll(b);
      var r :| r in b && r !in a;
      assert ListActive(unswept.tokens, u, entry, |b|, 0) == Sorted(b);
      assert r !in ListActive(swept.tokens, u, entry, |b|, 0);
      assert ListActive(swept.tokens, u, entry, |b|, 0) != ListActive(unswept.tokens, u, entry, |b|, 0);
    }
  }

  // ----- Two runs ---------------------------------------------------------

  const FIRST_PAGE := ListSessions(7, None, Pagination(1, 20))

  /** A listing that counted its one live session and then lost it to a sweep that entered after it. */
  lemma ListingLosesARow(cfg: Config) returns (ws: seq<World>, evs: seq<Event>)
    requires cfg.rowTtl >= 1
    ensures AfterRegistration(cfg, ws, evs) && |evs| == 6
    ensures evs[5].End? && evs[5].id in ws[5].pending && ws[5].pending[evs[5].id].call == FIRST_PAGE
    ensures Active(ws[2].store.tokens[Hash(FirstToken(cfg))], 7, evs[5].env.clock.entry)
    ensures Ended(cfg, ws[5], evs[5]).reply == Listed([], 1, 20, 1)
  {
    var before, later := cfg.rowTtl - 1, cfg.rowTtl + 1;
    ws, evs := RegisterAlice(cfg);
    var d, row := Hash(FirstToken(cfg)), MintedRow(cfg, 7, At(0, 1));
    assert ActiveRows(ws[2].store.tokens, 7, before) == {row};
    var w3 := OneMore(cfg, ws, evs, Begin(1, FIRST_PAGE, before));
    ws, evs := ws + [w3], evs + [Begin(1, FIRST_PAGE, before)];
    var w4 := OneMore(cfg, ws, evs, Begin(2, Purge, later));
    ws, evs := ws + [w4], evs + [Begin(2, Purge, later)];
    var w5 := OneMore(cfg, ws, evs, End(2, At(later, 2)));
    ws, evs := ws + [w5], evs + [End(2, At(later, 2))];
    assert Ended(cfg, w4, End(2, At(later, 2))) == ActPurge(w4.store, At(later, 2));
    assert w5.store.tokens == map[];
    assert ActiveRows(w5.store.tokens, 7, before) == {};
    var w6 := OneMore(cfg, ws, evs, End(1, At(before, 3)));
    ws, evs := ws + [w6], evs + [End(1, At(before, 3))];
    assert Ended(cfg, w5, End(1, At(before, 3)))
           == ActListSessions(w5.store, FIRST_PAGE, At(before, 3), w5.pending[1].seen);
  }

  /** Validation a nanosecond before the token expires, the lookup only after the row has expired. */
  function SlowRefresh(cfg: Config): Env {
    var t := cfg.rowTtl + 1;
    Env(Clock(FirstToken(cfg).exp - 1, t, t, t, t), 3, 3, CALM)
  }

  lemma SweepBeforeLookup(cfg: Config) returns (ws: seq<World>, evs: seq<Event>)
    requires cfg.jwtTtl == cfg.rowTtl >= SECOND
    ensures AfterRegistration(cfg, ws, evs) && |evs| == 5
    ensures evs[2..] == [Begin(1, Purge, cfg.rowTtl + 1), End(1, At(cfg.rowTtl + 1, 2)),
                         Begin(2, Refresh(Signed(FirstToken(cfg))), FirstToken(cfg).exp - 1)]
    ensures IsSweep(ws[3], evs[3]) && ws[4].store.tokens == map[] && ws[5].ids == {1, 2}
    ensures ws[5].pending == map[2 := Pending(Refresh(Signed(FirstToken(cfg))), FirstToken(cfg).exp - 1,
                                              SeenRow(None), 4)]
  {
    var later, c := cfg.rowTtl + 1, Refresh(Signed(FirstToken(cfg)));
    ws, evs := RegisterAlice(cfg);
    var w3 := OneMore(cfg, ws, evs, Begin(1, Purge, later));
    ws, evs := ws + [w3], evs + [Begin(1, Purge, later)];
    assert Ended(cfg, w3, End(1, At(later, 2))) == ActPurge(w3.store, At(later, 2));
    var w4 := OneMore(cfg, ws, evs, End(1, At(later, 2)));
    ws, evs := ws + [w4], evs + [End(1, At(later, 2))];
    assert w4.store.tokens == map[];
    var w5 := OneMore(cfg, ws, evs, Begin(2, c, FirstToken(cfg).exp - 1));
    ws, evs := ws + [w5], evs + [Begin(2, c, FirstToken(cfg).exp - 1)];
  }

  /** Without the sweep, the row of the registration is still there when the refresh looks for it. */
  lemma UntouchedUntilLookup(cfg: Config, ws: seq<World>, evs: seq<Event>, us: seq<World>)
    requires AfterRegistration(cfg, ws, evs) && Unswept(cfg, ws, evs, us) && |evs| == 6
    requires evs[2].Begin? && evs[2].call == Purge && evs[3].End? && IsSweep(ws[3], evs[3])
    ensures us[4] == us[2] == ws[2]
  {
    assert UnsweptStep(cfg, ws, evs, us, 0) && UnsweptStep(cfg, ws, evs, us, 1);
    assert UnsweptStep(cfg, ws, evs, us, 2) && UnsweptStep(cfg, ws, evs, us, 3);
    assert Follows(cfg, ws, evs, 0) && Follows(cfg, ws, evs, 1);
  }

  /**
   With equal lifetimes, a sweep between the validation and the lookup of a refresh
   turns an expired session into a theft alarm.
   */
  lemma SweepRaisesTheAlarm(cfg: Config) returns (ws: seq<World>, evs: seq<Event>, us: seq<World>)
    requires cfg.jwtTtl == cfg.rowTtl >= SECOND
    ensures AfterRegistration(cfg, ws, evs) && |evs| == 6 && Unswept(cfg, ws, evs, us) && Robbed(ws, evs, us, 5)
    ensures Ended(cfg, ws[5], evs[5]).reply == Failed(RefreshTokenRevoked)
    ensures evs[5].id in us[5].pending && Ended(cfg, us[5], evs[5]).reply == Failed(RefreshTokenExpired)
  {
    ws, evs := SweepBeforeLookup(cfg);
    var e := SlowRefresh(cfg);
    var w6 := OneMore(cfg, ws, evs, End(2, e));
    ws, evs := ws + [w6], evs + [End(2, e)];
    us := UnsweptExists(cfg, ws, evs);
    FirstTokenIsValid(cfg);
    UntouchedUntilLookup(cfg, ws, evs, us);
    RobbedRaisesTheAlarm(cfg, ws, evs, us, 5);
    var c := Refresh(Signed(FirstToken(cfg)));
    SameCallsThroughout(cfg, ws, evs, us, 5);
    UnsweptSeen(cfg, ws, evs, us, 5, 2);
    assert Ended(cfg, us[5], evs[5]) == ActRefresh(cfg, us[5].store, c, e, us[5].pending[2].seen);
  }
}
