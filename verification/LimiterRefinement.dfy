/** Forgetting idle buckets is invisible exactly when an idle bucket has refilled by the time it is forgotten. */
module LimiterRefinement {
  import opened Wrappers
  import opened RateLimiter

  // ----- A limiter that never forgets ------------------------------------

  function DecideKept(p: Policy, kept: map<string, Bucket>, now: real, key: string): (map<string, Bucket>, bool) {
    var (b, ok) := Spend(p, Held(p, kept, key, now), now);
    (kept[key := b], ok)
  }

  function DecisionsKept(p: Policy, kept: map<string, Bucket>, rs: seq<Request>): seq<bool>
    decreases |rs|
  {
    if rs == [] then []
    else
      var (next, ok) := DecideKept(p, kept, rs[0].at, rs[0].key);
      [ok] + DecisionsKept(p, next, rs[1..])
  }

  // ----- The refinement --------------------------------------------------

  /** Every bucket has its counterpart at the same level; a forgotten one is full. */
  ghost predicate Matches(p: Policy, a: map<string, Bucket>, kept: map<string, Bucket>, now: real) {
    && (forall k :: k in a ==> k in kept && BucketOk(p, a[k], now))
    && (forall k :: k in kept ==> BucketOk(p, kept[k], now))
    && (forall k :: k in kept ==> Level(p, kept[k], now) == Level(p, Held(p, a, k, now), now))
    && (forall k :: k in a ==> k in kept && a[k].seen == kept[k].seen)
  }

  lemma SameLevelLater(p: Policy, x: Bucket, y: Bucket, now: real, later: real)
    requires Sane(p) && BucketOk(p, x, now) && BucketOk(p, y, now) && now <= later
             && Level(p, x, now) == Level(p, y, now)
    ensures Level(p, x, later) == Level(p, y, later)
  {
    LevelComposes(p, x, now, later);
    LevelComposes(p, y, now, later);
  }

  lemma FullStaysFull(p: Policy, b: Bucket, now: real, later: real)
    requires Sane(p) && BucketOk(p, b, now) && now <= later && Level(p, b, now) == p.burst as real
    ensures Level(p, b, later) == Level(p, Full(p, later), later)
  {
    LevelComposes(p, b, now, later);
    MadeGrows(p, now, later);
  }

  lemma MatchesLater(p: Policy, a: map<string, Bucket>, kept: map<string, Bucket>, now: real, later: real)
    requires Sane(p) && Matches(p, a, kept, now) && now <= later
    ensures Matches(p, a, kept, later)
  {
    forall k | k in kept ensures Level(p, kept[k], later) == Level(p, Held(p, a, k, later), later) {
      if k in a {
        SameLevelLater(p, kept[k], a[k], now, later);
      } else {
        FullStaysFull(p, kept[k], now, later);
      }
    }
  }

  /** A bucket idle for longer than the lifetime is full when the lifetime covers a refill of the whole burst. */
  lemma IdleIsFull(p: Policy, b: Bucket, now: real)
    requires Sane(p) && BucketOk(p, b, now) && now - b.seen > p.ttl && p.burst as real <= p.rps * p.ttl
    ensures Level(p, b, now) == p.burst as real
  {
    MadeGrows(p, p.ttl, now - b.last);
    MadeBetween(p, b.last, now);
  }

  lemma CollectMatches(p: Policy, l: Limiter, kept: map<string, Bucket>, now: real)
    requires Sane(p) && Matches(p, l.buckets, kept, now) && p.burst as real <= p.rps * p.ttl
    ensures Matches(p, Collect(p, l, now).buckets, kept, now)
  {
    var swept := Collect(p, l, now).buckets;
    forall k | k in kept ensures Level(p, kept[k], now) == Level(p, Held(p, swept, k, now), now) {
      if k in l.buckets && k !in swept {
        IdleIsFull(p, kept[k], now);
      }
    }
  }

  lemma SpendMatches(p: Policy, a: map<string, Bucket>, kept: map<string, Bucket>, now: real, key: string)
    requires Sane(p) && Matches(p, a, kept, now)
    ensures Spend(p, Held(p, a, key, now), now).1 == Spend(p, Held(p, kept, key, now), now).1
    ensures Matches(p, a[key := Spend(p, Held(p, a, key, now), now).0],
                    kept[key := Spend(p, Held(p, kept, key, now), now).0], now)
  {
    var x, y := Held(p, a, key, now), Held(p, kept, key, now);
    SpendLevel(p, x, now);
    SpendLevel(p, y, now);
    assert Level(p, x, now) == Level(p, y, now);
    var a', kept' := a[key := Spend(p, x, now).0], kept[key := Spend(p, y, now).0];
    forall k | k in kept' ensures Level(p, kept'[k], now) == Level(p, Held(p, a', k, now), now) {
      if k != key {
        assert kept'[k] == kept[k] && Held(p, a', k, now) == Held(p, a, k, now);
      }
    }
  }

  lemma {:induction false} SameDecisions(p: Policy, l: Limiter, kept: map<string, Bucket>, now: real, rs: seq<Request>)
    requires Sane(p) && Matches(p, l.buckets, kept, now) && Ordered(now, rs) && p.burst as real <= p.rps * p.ttl
    ensures Decisions(p, l, rs) == DecisionsKept(p, kept, rs)
    decreases |rs|
  {
    if rs != [] {
      var t, key := rs[0].at, rs[0].key;
      OrderedTail(now, rs);
      MatchesLater(p, l.buckets, kept, now, t);
      CollectMatches(p, l, kept, t);
      SpendMatches(p, Collect(p, l, t).buckets, kept, t, key);
      SameDecisions(p, Decide(p, l, t, key).0, DecideKept(p, kept, t, key).0, t, rs[1..]);
    }
  }

  /** With burst <= rps * ttl, every request sequence gets the decisions of a limiter that never forgets. */
  lemma EvictionIsInvisible(p: Policy, now: real, rs: seq<Request>)
    requires Sane(p) && Ordered(now, rs) && p.burst as real <= p.rps * p.ttl
    ensures Decisions(p, NEW, rs) == DecisionsKept(p, map[], rs)
  {
    SameDecisions(p, NEW, map[], now, rs);
  }

  // ----- Exactly when ----------------------------------------------------

  const KEY := "k"

  /** n requests of one client at one instant. */
  function Volley(at: real, n: nat): seq<Request> {
    seq(n, i => Request(at, KEY))
  }

  function AllTrue(n: nat): seq<bool> {
    seq(n, i => true)
  }

  lemma VolleyTail(at: real, n: nat)
    requires n > 0
    ensures Volley(at, n) == [Request(at, KEY)] + Volley(at, n - 1)
    ensures AllTrue(n) == [true] + AllTrue(n - 1)
  {
  }

  /** A bucket with n tokens serves n requests; with no sweep due, nothing else changes. */
  lemma {:induction false} VolleyServed(p: Policy, l: Limiter, at: real, n: nat)
    requires Sane(p) && l.lastGC == Some(at) && KEY in l.buckets && l.buckets[KEY] == Bucket(n as real, at, at)
             && n <= p.burst
    ensures Decisions(p, l, Volley(at, n)) == AllTrue(n)
    ensures After(p, l, Volley(at, n)) == l.(buckets := l.buckets[KEY := Bucket(0.0, at, at)])
    decreases n
  {
    if n > 0 {
      VolleyTail(at, n);
      var next := l.(buckets := l.buckets[KEY := Bucket((n - 1) as real, at, at)]);
      assert Decide(p, l, at, KEY) == (next, true);
      VolleyServed(p, next, at, n - 1);
      assert ([Request(at, KEY)] + Volley(at, n - 1))[1..] == Volley(at, n - 1);
    }
  }

  /** A limiter without a bucket for the client serves the whole burst at once. */
  lemma BurstServed(p: Policy, l: Limiter, at: real)
    requires Sane(p) && p.burst >= 1 && KEY !in Collect(p, l, at).buckets && Collect(p, l, at).lastGC == Some(at)
    ensures Decisions(p, l, Volley(at, p.burst)) == AllTrue(p.burst)
    ensures After(p, l, Volley(at, p.burst)).buckets == Collect(p, l, at).buckets[KEY := Bucket(0.0, at, at)]
    ensures After(p, l, Volley(at, p.burst)).lastGC == Some(at)
  {
    VolleyTail(at, p.burst);
    var rest := Volley(at, p.burst - 1);
    var next := Decide(p, l, at, KEY).0;
    assert next.buckets[KEY] == Bucket((p.burst - 1) as real, at, at);
    VolleyServed(p, next, at, p.burst - 1);
    assert ([Request(at, KEY)] + rest)[1..] == rest;
  }

  lemma PrefixCancels(a: seq<bool>, b: seq<bool>, c: seq<bool>, d: seq<bool>)
    requires |a| == |c|
    ensures a + b == c + d ==> b == d
  {
    assert b == (a + b)[|a|..] && d == (c + d)[|c|..];
  }

  /** A limiter that never forgets serves n requests at one instant only from n tokens. */
  lemma {:induction false} VolleyNeedsTokens(p: Policy, kept: map<string, Bucket>, at: real, n: nat)
    requires Sane(p) && KEY in kept && BucketOk(p, kept[KEY], at)
    requires DecisionsKept(p, kept, Volley(at, n)) == AllTrue(n)
    ensures n as real <= Level(p, kept[KEY], at)
    decreases n
  {
    LevelInRange(p, kept[KEY], at);
    if n > 0 {
      VolleyTail(at, n);
      var (next, ok) := DecideKept(p, kept, at, KEY);
      assert ([Request(at, KEY)] + Volley(at, n - 1))[1..] == Volley(at, n - 1);
      assert DecisionsKept(p, kept, Volley(at, n)) == [ok] + DecisionsKept(p, next, Volley(at, n - 1));
      PrefixCancels([ok], DecisionsKept(p, next, Volley(at, n - 1)), [true], AllTrue(n - 1));
      assert ([ok] + DecisionsKept(p, next, Volley(at, n - 1)))[0] == true;
      VolleyNeedsTokens(p, next, at, n - 1);
    }
  }

  lemma {:induction false} Concatenates(p: Policy, l: Limiter, a: seq<Request>, b: seq<Request>)
    ensures Decisions(p, l, a + b) == Decisions(p, l, a) + Decisions(p, After(p, l, a), b)
    decreases |a|
  {
    if a == [] {
      assert a + b == b;
    } else {
      assert (a + b)[1..] == a[1..] + b;
      Concatenates(p, Decide(p, l, a[0].at, a[0].key).0, a[1..], b);
    }
  }

  function AfterKept(p: Policy, kept: map<string, Bucket>, rs: seq<Request>): map<string, Bucket>
    decreases |rs|
  {
    if rs == [] then kept else AfterKept(p, DecideKept(p, kept, rs[0].at, rs[0].key).0, rs[1..])
  }

  lemma {:induction false} ConcatenatesKept(p: Policy, kept: map<string, Bucket>, a: seq<Request>, b: seq<Request>)
    ensures DecisionsKept(p, kept, a + b) == DecisionsKept(p, kept, a) + DecisionsKept(p, AfterKept(p, kept, a), b)
    ensures |DecisionsKept(p, kept, a)| == |a|
    decreases |a|
  {
    if a == [] {
      assert a + b == b;
    } else {
      assert (a + b)[1..] == a[1..] + b;
      ConcatenatesKept(p, DecideKept(p, kept, a[0].at, a[0].key).0, a[1..], b);
    }
  }

  lemma {:induction false} VolleyEmptiesKept(p: Policy, kept: map<string, Bucket>, at: real, n: nat)
    requires Sane(p) && n <= p.burst
    requires KEY in kept && kept[KEY] == Bucket(n as real, at, at)
    ensures KEY in AfterKept(p, kept, Volley(at, n)) && AfterKept(p, kept, Volley(at, n))[KEY] == Bucket(0.0, at, at)
    decreases n
  {
    if n > 0 {
      VolleyTail(at, n);
      var next := kept[KEY := Bucket((n - 1) as real, at, at)];
      assert DecideKept(p, kept, at, KEY) == (next, true);
      VolleyEmptiesKept(p, next, at, n - 1);
      assert ([Request(at, KEY)] + Volley(at, n - 1))[1..] == Volley(at, n - 1);
    }
  }

  /** An instant after the lifetime at which a bucket emptied at zero has not refilled. */
  function TooSoon(p: Policy): real
    requires Sane(p)
  {
    if p.rps == 0.0 then p.ttl + 1.0 else (p.ttl + p.burst as real / p.rps) / 2.0
  }

  lemma TooSoonIs(p: Policy)
    requires Sane(p) && p.burst >= 1 && p.burst as real > p.rps * p.ttl
    ensures TooSoon(p) > p.ttl && p.rps * TooSoon(p) < p.burst as real
  {
    if p.rps > 0.0 {
      var full := p.burst as real / p.rps;
      assert p.rps * full == p.burst as real;
      if full <= p.ttl {
        MadeGrows(p, full, p.ttl);
      }
      assert p.rps * ((p.ttl + full) / 2.0) == (p.rps * p.ttl + p.rps * full) / 2.0;
    }
  }

  /** Spend the burst, wait until just after the bucket is forgotten, and ask for the burst again. */
  function Revealing(p: Policy): seq<Request>
    requires Sane(p)
  {
    Volley(0.0, p.burst) + Volley(TooSoon(p), p.burst)
  }

  lemma RevealingForgetful(p: Policy)
    requires Sane(p) && p.burst >= 1 && p.burst as real > p.rps * p.ttl
    ensures Decisions(p, NEW, Revealing(p)) == AllTrue(p.burst) + AllTrue(p.burst)
  {
    TooSoonIs(p);
    BurstServed(p, NEW, 0.0);
    var between := After(p, NEW, Volley(0.0, p.burst));
    BurstServed(p, between, TooSoon(p));
    Concatenates(p, NEW, Volley(0.0, p.burst), Volley(TooSoon(p), p.burst));
  }

  lemma FirstVolleyKept(p: Policy)
    requires Sane(p) && p.burst >= 1
    ensures KEY in AfterKept(p, map[], Volley(0.0, p.burst))
    ensures AfterKept(p, map[], Volley(0.0, p.burst))[KEY] == Bucket(0.0, 0.0, 0.0)
  {
    VolleyTail(0.0, p.burst);
    var rest := Volley(0.0, p.burst - 1);
    var next := map[KEY := Bucket((p.burst - 1) as real, 0.0, 0.0)];
    assert DecideKept(p, map[], 0.0, KEY) == (next, true);
    VolleyEmptiesKept(p, next, 0.0, p.burst - 1);
    assert ([Request(0.0, KEY)] + rest)[1..] == rest;
  }

  lemma RevealingKept(p: Policy)
    requires Sane(p) && p.burst >= 1 && p.burst as real > p.rps * p.ttl
    ensures DecisionsKept(p, map[], Revealing(p)) != AllTrue(p.burst) + AllTrue(p.burst)
  {
    var first, second := Volley(0.0, p.burst), Volley(TooSoon(p), p.burst);
    TooSoonIs(p);
    FirstVolleyKept(p);
    var kept := AfterKept(p, map[], first);
    ConcatenatesKept(p, map[], first, second);
    if DecisionsKept(p, kept, second) == AllTrue(p.burst) {
      VolleyNeedsTokens(p, kept, TooSoon(p), p.burst);
      assert false;
    }
    PrefixCancels(DecisionsKept(p, map[], first), DecisionsKept(p, kept, second), AllTrue(p.burst), AllTrue(p.burst));
  }

  lemma {:induction false} NothingWithoutBurst(p: Policy, l: Limiter, kept: map<string, Bucket>, rs: seq<Request>,
                                               now: real)
    requires Sane(p) && p.burst == 0 && Ok(p, l, now) && Ordered(now, rs)
    requires forall k :: k in kept ==> BucketOk(p, kept[k], now)
    ensures Decisions(p, l, rs) == DecisionsKept(p, kept, rs)
    decreases |rs|
  {
    if rs != [] {
      var t, key := rs[0].at, rs[0].key;
      OrderedTail(now, rs);
      LevelInRange(p, Held(p, kept, key, t), t);
      LevelInRange(p, Held(p, Collect(p, l, t).buckets, key, t), t);
      DecideKeepsOk(p, l, now, rs[0]);
      NothingWithoutBurst(p, Decide(p, l, t, key).0, DecideKept(p, kept, t, key).0, rs[1..], t);
    }
  }

  /**
   Eviction never changes a decision if and only if the lifetime of an idle
   bucket is long enough to refill the burst, or there is no burst to refill.
   */
  lemma EvictionInvisibleExactly(p: Policy)
    requires Sane(p)
    ensures (forall rs :: Ordered(0.0, rs) ==> Decisions(p, NEW, rs) == DecisionsKept(p, map[], rs))
            <==> p.burst == 0 || p.burst as real <= p.rps * p.ttl
  {
    if p.burst == 0 {
      forall rs | Ordered(0.0, rs) ensures Decisions(p, NEW, rs) == DecisionsKept(p, map[], rs) {
        NothingWithoutBurst(p, NEW, map[], rs, 0.0);
      }
    } else if p.burst as real <= p.rps * p.ttl {
      forall rs | Ordered(0.0, rs) ensures Decisions(p, NEW, rs) == DecisionsKept(p, map[], rs) {
        EvictionIsInvisible(p, 0.0, rs);
      }
    } else {
      TooSoonIs(p);
      RevealingForgetful(p);
      RevealingKept(p);
      assert Ordered(0.0, Revealing(p));
    }
  }
}
