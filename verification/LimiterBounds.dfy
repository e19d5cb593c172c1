/** How many requests a client can get through, and how long the map remembers it. */
module LimiterBounds {
  import opened RateLimiter

  /** The limiter after a sequence of requests, last request last. */
  function Run(p: Policy, rs: seq<Request>): Limiter {
    if rs == [] then NEW else Decide(p, Run(p, rs[..|rs| - 1]), rs[|rs| - 1].at, rs[|rs| - 1].key).0
  }

  // ----- Accounting ------------------------------------------------------

  /** The budget of a client: its bucket's level, or a full bucket if it has none. */
  function Budget(p: Policy, l: Limiter, key: string, now: real): real {
    Level(p, Held(p, l.buckets, key, now), now)
  }

  /** How many requests of the client are allowed. */
  function Allowed(p: Policy, l: Limiter, rs: seq<Request>, key: string): nat
    decreases |rs|
  {
    if rs == [] then 0
    else
      var (next, ok) := Decide(p, l, rs[0].at, rs[0].key);
      (if ok && rs[0].key == key then 1 else 0) + Allowed(p, next, rs[1..], key)
  }

  /** How many of the decisions let a request of the client through. */
  function Granted(rs: seq<Request>, ds: seq<bool>, key: string): nat
    requires |rs| == |ds|
  {
    if rs == [] then 0 else (if ds[0] && rs[0].key == key then 1 else 0) + Granted(rs[1..], ds[1..], key)
  }

  /** The requests counted as allowed are those the decisions let through. */
  lemma {:induction false} AllowedAreGranted(p: Policy, l: Limiter, rs: seq<Request>, key: string)
    ensures |Decisions(p, l, rs)| == |rs| && Allowed(p, l, rs, key) == Granted(rs, Decisions(p, l, rs), key)
    decreases |rs|
  {
    if rs != [] {
      AllowedAreGranted(p, Decide(p, l, rs[0].at, rs[0].key).0, rs[1..], key);
    }
  }

  predicate Evicts(p: Policy, l: Limiter, now: real, key: string) {
    key in l.buckets && key !in Collect(p, l, now).buckets
  }

  /** How many times the client's bucket is forgotten. */
  function Evictions(p: Policy, l: Limiter, rs: seq<Request>, key: string): nat
    decreases |rs|
  {
    if rs == [] then 0
    else (if Evicts(p, l, rs[0].at, key) then 1 else 0)
         + Evictions(p, Decide(p, l, rs[0].at, rs[0].key).0, rs[1..], key)
  }

  lemma Distributes(x: real, a: real, b: real)
    ensures x * a + x * b == x * (a + b)
  {
  }

  lemma FullLevel(p: Policy, now: real)
    ensures Level(p, Full(p, now), now) == p.burst as real
  {
  }

  /** What a topped-up bucket adds. */
  function TopUp(p: Policy, l: Limiter, now: real, key: string): real {
    if Evicts(p, l, now, key) then p.burst as real else 0.0
  }

  /** Until the request itself, the budget grows by the refill and is topped up when forgotten. */
  lemma BudgetGrows(p: Policy, l: Limiter, now: real, t: real, key: string)
    requires Sane(p) && Ok(p, l, now) && now <= t
    ensures 0.0 <= Budget(p, l, key, now) <= p.burst as real
    ensures Budget(p, Collect(p, l, t), key, t) <= Budget(p, l, key, now) + (Made(p, t) - Made(p, now))
            + TopUp(p, l, t, key)
    ensures 0.0 <= Budget(p, Collect(p, l, t), key, t) <= p.burst as real
  {
    MadeGrows(p, now, t);
    FullLevel(p, now);
    FullLevel(p, t);
    if key in l.buckets {
      LevelInRange(p, l.buckets[key], now);
      LevelInRange(p, l.buckets[key], t);
      LevelComposes(p, l.buckets[key], now, t);
    }
  }

  /** What one call costs the client. */
  function Paid(p: Policy, l: Limiter, r: Request, key: string): nat {
    if Decide(p, l, r.at, r.key).1 && r.key == key then 1 else 0
  }

  /** One call: the budget pays for what is allowed. */
  lemma BudgetStep(p: Policy, l: Limiter, now: real, r: Request, key: string)
    requires Sane(p) && Ok(p, l, now) && now <= r.at
    ensures 0.0 <= Budget(p, Decide(p, l, r.at, r.key).0, key, r.at)
    ensures Budget(p, Decide(p, l, r.at, r.key).0, key, r.at) + Paid(p, l, r, key) as real
            == Budget(p, Collect(p, l, r.at), key, r.at)
  {
    var swept := Collect(p, l, r.at);
    BudgetGrows(p, l, now, r.at, key);
    SpendLevel(p, Held(p, swept.buckets, r.key, r.at), r.at);
    var next := Decide(p, l, r.at, r.key).0;
    if r.key != key {
      assert Held(p, next.buckets, key, r.at) == Held(p, swept.buckets, key, r.at);
    }
  }

  /** x, n times. */
  function Times(x: real, n: nat): real {
    if n == 0 then 0.0 else x + Times(x, n - 1)
  }

  lemma {:induction false} TimesIsProduct(x: real, n: nat)
    ensures Times(x, n) == x * n as real
  {
    if n > 0 {
      TimesIsProduct(x, n - 1);
      Distributes(x, 1.0, (n - 1) as real);
    }
  }

  /** Nothing is allowed beyond the budget, the refill and the top-ups. */
  lemma {:induction false} AllowedWithinBudget(p: Policy, l: Limiter, now: real, rs: seq<Request>, key: string)
    requires Sane(p) && Ok(p, l, now) && Ordered(now, rs)
    ensures Allowed(p, l, rs, key) as real
            <= Budget(p, l, key, now) + (Made(p, End(now, rs)) - Made(p, now))
                + Times(p.burst as real, Evictions(p, l, rs, key))
    decreases |rs|
  {
    if rs == [] {
      BudgetGrows(p, l, now, now, key);
    } else {
      var t := rs[0].at;
      OrderedTail(now, rs);
      BudgetStep(p, l, now, rs[0], key);
      BudgetGrows(p, l, now, t, key);
      DecideKeepsOk(p, l, now, rs[0]);
      AllowedWithinBudget(p, Decide(p, l, t, rs[0].key).0, t, rs[1..], key);
    }
  }

  // ----- Evictions are a lifetime apart ----------------------------------

  /** The last use of the client's bucket, or now if it has none. */
  function LastUse(l: Limiter, key: string, now: real): real {
    if key in l.buckets then l.buckets[key].seen else now
  }

  lemma SpendSetsSeen(p: Policy, b: Bucket, now: real)
    ensures Spend(p, b, now).0.seen == now
  {
  }

  lemma LastUseAdvances(p: Policy, l: Limiter, now: real, r: Request, key: string)
    requires Sane(p) && Ok(p, l, now) && now <= r.at
    ensures var next := Decide(p, l, r.at, r.key).0;
            && LastUse(l, key, now) <= LastUse(next, key, r.at) <= r.at
            && (Evicts(p, l, r.at, key) ==> LastUse(next, key, r.at) == r.at && r.at - LastUse(l, key, now) > p.ttl)
            && (key == r.key ==> LastUse(next, key, r.at) == r.at)
  {
    SpendSetsSeen(p, Held(p, Collect(p, l, r.at).buckets, r.key, r.at), r.at);
  }

  lemma {:induction false} EvictionsAreSpaced(p: Policy, l: Limiter, now: real, rs: seq<Request>, key: string)
    requires Sane(p) && Ok(p, l, now) && Ordered(now, rs)
    ensures Evictions(p, l, rs, key) > 0
            ==> Times(p.ttl, Evictions(p, l, rs, key)) < End(now, rs) - LastUse(l, key, now)
    decreases |rs|
  {
    if rs != [] {
      var t := rs[0].at;
      var next := Decide(p, l, t, rs[0].key).0;
      OrderedTail(now, rs);
      DecideKeepsOk(p, l, now, rs[0]);
      EvictionsAreSpaced(p, next, t, rs[1..], key);
      LastUseAdvances(p, l, now, rs[0], key);
    }
  }

  /** The opening request and the budget it leaves come out of one full bucket. */
  lemma OpeningRequest(p: Policy, l: Limiter, now: real, r: Request)
    requires Sane(p) && Ok(p, l, now) && now <= r.at
    ensures Paid(p, l, r, r.key) as real + Budget(p, Decide(p, l, r.at, r.key).0, r.key, r.at) <= p.burst as real
  {
    BudgetStep(p, l, now, r, r.key);
    BudgetGrows(p, l, now, r.at, r.key);
  }

  lemma WindowAllowed(p: Policy, l: Limiter, now: real, rs: seq<Request>)
    requires Sane(p) && Ok(p, l, now) && Ordered(now, rs) && rs != []
    ensures var t, key := rs[0].at, rs[0].key;
            var k := Evictions(p, Decide(p, l, t, key).0, rs[1..], key);
            Allowed(p, l, rs, key) as real <= Times(p.burst as real, k + 1) + (Made(p, End(now, rs)) - Made(p, t))
  {
    var t, key := rs[0].at, rs[0].key;
    OrderedTail(now, rs);
    DecideKeepsOk(p, l, now, rs[0]);
    OpeningRequest(p, l, now, rs[0]);
    AllowedWithinBudget(p, Decide(p, l, t, key).0, t, rs[1..], key);
  }

  lemma WindowEvictions(p: Policy, l: Limiter, now: real, rs: seq<Request>)
    requires Sane(p) && Ok(p, l, now) && Ordered(now, rs) && rs != []
    ensures var t, key := rs[0].at, rs[0].key;
            var k := Evictions(p, Decide(p, l, t, key).0, rs[1..], key);
            k > 0 ==> Times(p.ttl, k) < End(now, rs) - t
  {
    var t, key := rs[0].at, rs[0].key;
    OrderedTail(now, rs);
    DecideKeepsOk(p, l, now, rs[0]);
    EvictionsAreSpaced(p, Decide(p, l, t, key).0, t, rs[1..], key);
    LastUseAdvances(p, l, now, rs[0], key);
  }

  /** The bound a window of length T with k evictions inside it must meet. */
  predicate Bounded(p: Policy, allowed: nat, k: nat, T: real) {
    && allowed as real <= p.burst as real * (k + 1) as real + p.rps * T
    && (k > 0 ==> p.ttl * k as real < T)
  }

  lemma Products(p: Policy, allowed: nat, k: nat, t: real, end: real)
    requires allowed as real <= Times(p.burst as real, k + 1) + (Made(p, end) - Made(p, t))
    requires k > 0 ==> Times(p.ttl, k) < end - t
    ensures Bounded(p, allowed, k, end - t)
  {
    TimesIsProduct(p.burst as real, k + 1);
    TimesIsProduct(p.ttl, k);
    MadeBetween(p, t, end);
  }

  /**
   Over any window that opens with a request of the client, at most
   burst * (k + 1) + rps * T of its requests are allowed, where T is the length
   of the window and k how often its bucket was forgotten inside it; and k
   evictions take more than k lifetimes.
   */
  lemma WindowBound(p: Policy, l: Limiter, now: real, rs: seq<Request>) returns (allowed: nat, k: nat, T: real)
    requires Sane(p) && Ok(p, l, now) && Ordered(now, rs) && rs != []
    ensures allowed == Allowed(p, l, rs, rs[0].key)
    ensures k == Evictions(p, Decide(p, l, rs[0].at, rs[0].key).0, rs[1..], rs[0].key)
    ensures T == End(now, rs) - rs[0].at
    ensures Bounded(p, allowed, k, T)
  {
    WindowAllowed(p, l, now, rs);
    WindowEvictions(p, l, now, rs);
    allowed := Allowed(p, l, rs, rs[0].key);
    k := Evictions(p, Decide(p, l, rs[0].at, rs[0].key).0, rs[1..], rs[0].key);
    T := End(now, rs) - rs[0].at;
    Products(p, allowed, k, rs[0].at, End(now, rs));
  }

  /** Every limiter a sequence of requests leads to from a new one keeps its buckets within bounds. */
  lemma {:induction false} OkThroughout(p: Policy, now: real, rs: seq<Request>)
    requires Sane(p) && Ordered(now, rs)
    ensures Ok(p, Run(p, rs), End(now, rs))
    decreases |rs|
  {
    if rs != [] {
      var before := rs[..|rs| - 1];
      OkThroughout(p, now, before);
      DecideKeepsOk(p, Run(p, before), End(now, before), rs[|rs| - 1]);
    }
  }

  /** The bound for a window anywhere in a sequence of requests to a new limiter. */
  lemma ReachedWindowBound(p: Policy, now: real, before: seq<Request>, rs: seq<Request>)
    returns (allowed: nat, k: nat, T: real)
    requires Sane(p) && Ordered(now, before) && Ordered(End(now, before), rs) && rs != []
    ensures allowed == Allowed(p, Run(p, before), rs, rs[0].key)
    ensures k == Evictions(p, Decide(p, Run(p, before), rs[0].at, rs[0].key).0, rs[1..], rs[0].key)
    ensures T == End(End(now, before), rs) - rs[0].at
    ensures Bounded(p, allowed, k, T)
  {
    OkThroughout(p, now, before);
    allowed, k, T := WindowBound(p, Run(p, before), End(now, before), rs);
  }

  // ----- The map stays fresh ---------------------------------------------

  /** Between sweeps, nothing is older than one lifetime before the last sweep. */
  ghost predicate Tidy(p: Policy, l: Limiter, now: real) {
    && (l.lastGC.None? ==> l.buckets == map[])
    && (l.lastGC.Some? ==>
          && l.lastGC.value <= now
          && forall k :: k in l.buckets ==> l.lastGC.value - l.buckets[k].seen <= p.ttl)
  }

  lemma DecideTidies(p: Policy, l: Limiter, now: real, r: Request)
    requires Sane(p) && Tidy(p, l, now) && now <= r.at
    ensures var next := Decide(p, l, r.at, r.key).0;
            && Tidy(p, next, r.at)
            && (forall k :: k in next.buckets ==> r.at - next.buckets[k].seen < 2.0 * p.ttl)
  {
    SpendSetsSeen(p, Held(p, Collect(p, l, r.at).buckets, r.key, r.at), r.at);
  }

  /** Where the use a bucket remembers comes from. */
  ghost predicate UsedIn(rs: seq<Request>, key: string, at: real) {
    exists i :: 0 <= i < |rs| && rs[i] == Request(at, key)
  }

  /**
   After every call, a remembered bucket was last used less than two lifetimes
   ago, by a request of that client; so the map holds only recent clients.
   */
  lemma {:induction false} MapStaysFresh(p: Policy, now: real, rs: seq<Request>)
    requires Sane(p) && Ordered(now, rs)
    ensures var l := Run(p, rs);
            && Tidy(p, l, End(now, rs))
            && (forall k :: k in l.buckets ==>
                  End(now, rs) - l.buckets[k].seen < 2.0 * p.ttl && UsedIn(rs, k, l.buckets[k].seen))
    decreases |rs|
  {
    if rs != [] {
      var before, r := rs[..|rs| - 1], rs[|rs| - 1];
      MapStaysFresh(p, now, before);
      var l := Run(p, before);
      DecideTidies(p, l, End(now, before), r);
      SpendSetsSeen(p, Held(p, Collect(p, l, r.at).buckets, r.key, r.at), r.at);
      var next := Run(p, rs);
      forall k | k in next.buckets ensures UsedIn(rs, k, next.buckets[k].seen) {
        if k == r.key {
          assert rs[|rs| - 1] == Request(next.buckets[k].seen, k);
        } else {
          assert UsedIn(before, k, l.buckets[k].seen);
          var i :| 0 <= i < |before| && before[i] == Request(l.buckets[k].seen, k);
          assert rs[i] == before[i];
        }
      }
    }
  }
}
