/**
 The per-client rate limiter: one token bucket per key, and a sweep that forgets
 buckets of clients that have gone quiet.

 Amounts and instants are exact reals (instants in seconds), one clock reading
 per call. A bucket starts full, refills at the policy's rate, holds at most the
 burst, and gives one token per allowed request.
 */
module RateLimiter {
  import opened Wrappers

  datatype Policy = Policy(rps: real, burst: nat, ttl: real)

  datatype Bucket = Bucket(tokens: real, last: real, seen: real)

  /** No sweep has happened yet while lastGC is absent: the zero time lies further back than any lifetime. */
  datatype Limiter = Limiter(buckets: map<string, Bucket>, lastGC: Option<real>)

  const DEFAULT_TTL: real := 600.0
  const NEW: Limiter := Limiter(map[], None)

  predicate Sane(p: Policy) {
    p.rps >= 0.0 && p.ttl > 0.0
  }

  function Capped(p: Policy, x: real): real {
    if x > p.burst as real then p.burst as real else x
  }

  /** Tokens produced since time zero; between two instants the refill is the difference. */
  function Made(p: Policy, t: real): real {
    p.rps * t
  }

  /** The tokens a bucket holds at an instant. */
  function Level(p: Policy, b: Bucket, now: real): real {
    Capped(p, b.tokens + (if now < b.last then 0.0 else Made(p, now) - Made(p, b.last)))
  }

  function Full(p: Policy, now: real): Bucket {
    Bucket(p.burst as real, now, now)
  }

  /** Takes a token if there is one; a refused request changes nothing but the time of last use. */
  function Spend(p: Policy, b: Bucket, now: real): (Bucket, bool) {
    if Level(p, b, now) >= 1.0 then (Bucket(Level(p, b, now) - 1.0, now, now), true) else (b.(seen := now), false)
  }

  function Collect(p: Policy, l: Limiter, now: real): Limiter {
    if l.lastGC.Some? && now - l.lastGC.value < p.ttl then l
    else Limiter(map k | k in l.buckets && now - l.buckets[k].seen <= p.ttl :: l.buckets[k], Some(now))
  }

  function Held(p: Policy, buckets: map<string, Bucket>, key: string, now: real): Bucket {
    if key in buckets then buckets[key] else Full(p, now)
  }

  function Decide(p: Policy, l: Limiter, now: real, key: string): (Limiter, bool) {
    var swept := Collect(p, l, now);
    var (b, ok) := Spend(p, Held(p, swept.buckets, key, now), now);
    (swept.(buckets := swept.buckets[key := b]), ok)
  }

  class IPRateLimiter {
    const policy: Policy
    var buckets: map<string, Bucket>
    var lastGC: Option<real>

    ghost function View(): Limiter
      reads this
    {
      Limiter(buckets, lastGC)
    }

    constructor (rps: real, burst: nat, ttl: real)
      ensures policy == Policy(rps, burst, if ttl <= 0.0 then 600.0 else ttl) && policy.ttl > 0.0
      ensures View() == NEW
    {
      policy := Policy(rps, burst, if ttl <= 0.0 then DEFAULT_TTL else ttl);
      buckets, lastGC := map[], None;
    }

    /** Drops the buckets of clients that have gone quiet, at most once per lifetime. */
    method Gc(now: real)
      modifies this
      ensures View() == Collect(policy, old(View()), now)
    {
      if lastGC.Some? && now - lastGC.value < policy.ttl {
        return;
      }
      lastGC := Some(now);
      var todo := buckets.Keys;
      ghost var was := buckets;
      while todo != {}
        invariant todo <= buckets.Keys <= was.Keys && lastGC == Some(now)
        invariant forall k :: k in was ==> (k in buckets <==> k in todo || now - was[k].seen <= policy.ttl)
        invariant forall k :: k in buckets ==> buckets[k] == was[k]
        decreases |todo|
      {
        var key :| key in todo;
        todo := todo - {key};
        if now - buckets[key].seen > policy.ttl {
          buckets := buckets - {key};
        }
      }
    }

    method Allow(now: real, key: string) returns (ok: bool)
      modifies this
      ensures (View(), ok) == Decide(policy, old(View()), now, key)
    {
      Gc(now);
      var b := if key in buckets then buckets[key] else Full(policy, now);
      var level := Level(policy, b, now);
      ok := level >= 1.0;
      b := if ok then Bucket(level - 1.0, now, now) else b.(seen := now);
      buckets := buckets[key := b];
    }
  }

  // ----- Request sequences -----------------------------------------------

  datatype Request = Request(at: real, key: string)

  /** Requests on a clock that never goes back, the first no earlier than the given instant. */
  ghost predicate Ordered(now: real, rs: seq<Request>) {
    && (forall i :: 0 <= i < |rs| ==> now <= rs[i].at)
    && (forall i, j :: 0 <= i < j < |rs| ==> rs[i].at <= rs[j].at)
  }

  function After(p: Policy, l: Limiter, rs: seq<Request>): Limiter
    decreases |rs|
  {
    if rs == [] then l else After(p, Decide(p, l, rs[0].at, rs[0].key).0, rs[1..])
  }

  function Decisions(p: Policy, l: Limiter, rs: seq<Request>): seq<bool>
    decreases |rs|
  {
    if rs == [] then []
    else
      var (next, ok) := Decide(p, l, rs[0].at, rs[0].key);
      [ok] + Decisions(p, next, rs[1..])
  }

  function End(now: real, rs: seq<Request>): real {
    if rs == [] then now else rs[|rs| - 1].at
  }

  lemma OrderedTail(now: real, rs: seq<Request>)
    requires Ordered(now, rs) && rs != []
    ensures now <= rs[0].at && Ordered(rs[0].at, rs[1..])
    ensures End(rs[0].at, rs[1..]) == End(now, rs) && rs[0].at <= End(now, rs)
  {
  }

  // ----- The invariant of every reachable limiter ------------------------

  ghost predicate BucketOk(p: Policy, b: Bucket, now: real) {
    0.0 <= b.tokens <= p.burst as real && b.last <= b.seen <= now
  }

  ghost predicate Ok(p: Policy, l: Limiter, now: real) {
    forall k :: k in l.buckets ==> BucketOk(p, l.buckets[k], now)
  }

  lemma MadeBetween(p: Policy, a: real, b: real)
    ensures Made(p, b) - Made(p, a) == p.rps * (b - a)
  {
  }

  lemma MadeGrows(p: Policy, a: real, b: real)
    requires Sane(p) && a <= b
    ensures Made(p, a) <= Made(p, b)
  {
    assert p.rps * (b - a) >= 0.0;
    MadeBetween(p, a, b);
  }

  lemma LevelInRange(p: Policy, b: Bucket, now: real)
    requires Sane(p) && BucketOk(p, b, now)
    ensures b.tokens <= Level(p, b, now) <= p.burst as real
  {
    MadeGrows(p, b.last, now);
  }

  /** The level later is the level now plus the refill in between, capped. */
  lemma LevelComposes(p: Policy, b: Bucket, now: real, later: real)
    requires Sane(p) && BucketOk(p, b, now) && now <= later
    ensures Level(p, b, later) == Capped(p, Level(p, b, now) + (Made(p, later) - Made(p, now)))
  {
    MadeGrows(p, b.last, now);
    MadeGrows(p, now, later);
  }

  /** Spending depends on the level alone and lowers it by what it gives. */
  lemma SpendLevel(p: Policy, b: Bucket, now: real)
    requires Sane(p) && BucketOk(p, b, now)
    ensures var (b', ok) := Spend(p, b, now);
            && ok == (Level(p, b, now) >= 1.0)
            && BucketOk(p, b', now) && b'.seen == now
            && Level(p, b', now) == Level(p, b, now) - (if ok then 1.0 else 0.0)
  {
    LevelInRange(p, b, now);
  }

  lemma DecideKeepsOk(p: Policy, l: Limiter, now: real, r: Request)
    requires Sane(p) && Ok(p, l, now) && now <= r.at
    ensures Ok(p, Decide(p, l, r.at, r.key).0, r.at)
  {
    var swept := Collect(p, l, r.at);
    LevelInRange(p, Held(p, swept.buckets, r.key, r.at), r.at);
  }

  // ----- What a call does, in terms of the map -----------------------------

  /** A sweep is due when there has been none, or the last was a lifetime ago. */
  predicate Due(p: Policy, l: Limiter, now: real) {
    l.lastGC == None || l.lastGC.value + p.ttl <= now
  }

  /** The bucket of the client is one a call may spend from: it was not just swept. */
  predicate Remembered(p: Policy, l: Limiter, now: real, key: string) {
    key in l.buckets && (Due(p, l, now) ==> now <= l.buckets[key].seen + p.ttl)
  }

  /**
   A call sweeps only when a sweep is due. It then forgets exactly the other clients
   that have been quiet for longer than the lifetime; otherwise it forgets nobody.
   No other bucket is touched.
   */
  lemma SweepsWhenDue(p: Policy, l: Limiter, now: real, key: string)
    ensures var next := Decide(p, l, now, key).0;
            && next.lastGC == (if Due(p, l, now) then Some(now) else l.lastGC)
            && key in next.buckets
            && (forall k :: k != key ==> (k in next.buckets <==> Remembered(p, l, now, k)))
            && (forall k :: k != key && k in next.buckets ==> next.buckets[k] == l.buckets[k])
  {
  }

  /** What a remembered client has left: what it had and what has been made since, up to the burst. */
  function Left(p: Policy, b: Bucket, now: real): real {
    var x := b.tokens + p.rps * (now - b.last);
    if x > p.burst as real then p.burst as real else x
  }

  lemma LevelIsLeft(p: Policy, b: Bucket, now: real)
    requires BucketOk(p, b, now)
    ensures Level(p, b, now) == Left(p, b, now)
  {
    var made := Made(p, now) - Made(p, b.last);
    MadeBetween(p, b.last, now);
    assert made == p.rps * (now - b.last);
    assert Level(p, b, now) == Capped(p, b.tokens + made);
    assert Left(p, b, now) == Capped(p, b.tokens + made);
  }

  /**
   A client that is not remembered has a full burst. A request takes one if it can,
   and otherwise nothing; either way the client has been seen.
   */
  lemma AllowsExactly(p: Policy, l: Limiter, now: real, key: string)
    requires Ok(p, l, now)
    ensures var (next, ok) := Decide(p, l, now, key);
            var b := if Remembered(p, l, now, key) then l.buckets[key] else Bucket(p.burst as real, now, now);
            && (ok <==> Left(p, b, now) >= 1.0)
            && key in next.buckets
            && next.buckets[key] == if ok then Bucket(Left(p, b, now) - 1.0, now, now) else b.(seen := now)
  {
    var b := if Remembered(p, l, now, key) then l.buckets[key] else Bucket(p.burst as real, now, now);
    assert Held(p, Collect(p, l, now).buckets, key, now) == b;
    LevelIsLeft(p, b, now);
  }
}
