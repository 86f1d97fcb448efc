/**
 A rate limit pool: one token bucket per key, with stale buckets removed now and then. Time is
 in whole nanoseconds and a bucket's level in billionths of a token, so that a bucket gains
 exactly `rps` units per nanosecond. A request looks at the clock three times: for the time of
 last use, for the bucket, and for the cleanup. The first two readings may be any time apart, and
 other requests may be served in between; but a request finds, marks and draws on its bucket in
 one step, so it always draws on the bucket that is in the pool. `RateRace` has these sections
 apart. The limiter library is modelled as: take one token, or leave the bucket as it is.
 */
module RatePool {
  import opened Options

  /** Nanoseconds per second, and units per token. */
  const SECOND: nat := 1_000_000_000
  const CLEAN_EVERY: nat := 300 * SECOND
  const KEEP_SECONDS: nat := 600
  const KEPT: nat := KEEP_SECONDS * SECOND

  /** The last nanosecond of the first second, and the first moment at which a bucket last used in
      that second is stale. */
  const EARLY: nat := SECOND - 1
  const LATE: nat := KEPT + SECOND

  datatype Config = Config(rps: nat, burst: nat)

  function Capacity(cfg: Config): nat {
    cfg.burst * SECOND
  }

  /** `lastUsed` is in whole seconds. */
  datatype Bucket = Bucket(level: nat, last: nat, lastUsed: nat)

  function Min(a: nat, b: nat): nat {
    if a <= b then a else b
  }

  function LevelAt(cfg: Config, b: Bucket, t: nat): nat {
    Min(Capacity(cfg), b.level + cfg.rps * if t > b.last then t - b.last else 0)
  }

  function NewBucket(cfg: Config, t: nat): Bucket {
    Bucket(Capacity(cfg), t, t / SECOND)
  }

  type Buckets = map<string, Bucket>

  function BucketFor(cfg: Config, buckets: Buckets, key: string, t: nat): Bucket {
    if key in buckets then buckets[key] else NewBucket(cfg, t)
  }

  predicate Admits(cfg: Config, buckets: Buckets, key: string, t: nat) {
    LevelAt(cfg, BucketFor(cfg, buckets, key, t), t) >= SECOND
  }

  /** The bucket after a request that read `u` for the time of last use and `t` for the tokens. */
  function Used(cfg: Config, buckets: Buckets, key: string, u: nat, t: nat): Bucket {
    var b := BucketFor(cfg, buckets, key, t);
    if Admits(cfg, buckets, key, t) then Bucket(LevelAt(cfg, b, t) - SECOND, t, u / SECOND)
    else b.(lastUsed := u / SECOND)
  }

  predicate CleanupDue(lastClean: Option<nat>, now: nat) {
    lastClean.None? || now > lastClean.value + CLEAN_EVERY
  }

  /** Not used since ten minutes before `now`, both rounded down to seconds. */
  predicate Stale(b: Bucket, now: nat) {
    (b.lastUsed as int) < (now as int - KEEP_SECONDS * SECOND) / SECOND
  }

  function Swept(buckets: Buckets, now: nat): Buckets {
    map k | k in buckets && !Stale(buckets[k], now) :: buckets[k]
  }

  /** Five minutes must have passed since the last cleanup, and then exactly the buckets stay that
      were used in the second ten minutes ago or later. */
  lemma CleanupIs(buckets: Buckets, lastClean: Option<nat>, now: nat)
    ensures CleanupDue(lastClean, now) <==> lastClean.None? || now > lastClean.value + 300_000_000_000
    ensures forall k :: k in Swept(buckets, now) <==>
      k in buckets && buckets[k].lastUsed >= (now as int - 600_000_000_000) / 1_000_000_000
    ensures forall k :: k in Swept(buckets, now) ==> Swept(buckets, now)[k] == buckets[k]
  {
  }

  /** The pool. */
  class Pool {
    const cfg: Config
    var buckets: Buckets
    var lastClean: Option<nat>

    ghost function State(): PoolState
      reads this
    {
      PoolState(buckets, lastClean)
    }

    constructor (c: Config)
      ensures cfg == c && State() == EMPTY
    {
      cfg := c;
      buckets, lastClean := map[], None;
    }

    method GetOrCreateBucket(key: string, now: nat) returns (b: Bucket)
      modifies this
      ensures b == BucketFor(cfg, old(buckets), key, now)
      ensures buckets == old(buckets)[key := b] && lastClean == old(lastClean)
    {
      if key in buckets {
        b := buckets[key];
      } else {
        b := NewBucket(cfg, now);
      }
      buckets := buckets[key := b];
    }

    method MaybeCleanup(now: nat)
      modifies this
      ensures if CleanupDue(old(lastClean), now) then State() == PoolState(Swept(old(buckets), now), Some(now))
              else State() == old(State())
    {
      if !CleanupDue(lastClean, now) {
        return;
      }
      var todo := buckets.Keys;
      var all := buckets;
      while todo != {}
        invariant todo <= all.Keys && buckets.Keys <= all.Keys && lastClean == old(lastClean)
        invariant forall k :: k in buckets ==> buckets[k] == all[k]
        invariant forall k :: k in all ==> (k in buckets <==> k in todo || !Stale(all[k], now))
        decreases todo
      {
        var key :| key in todo;
        if Stale(all[key], now) {
          buckets := buckets - {key};
        }
        todo := todo - {key};
      }
      lastClean := Some(now);
      assert buckets == Swept(all, now);
    }

    /** One request: the decision and the new state are those of `After`. */
    method Allow(key: string, used: nat, at: nat, cleanAt: nat) returns (allowed: bool, retryAfter: nat)
      modifies this
      ensures allowed == Admits(cfg, old(buckets), key, at)
      ensures State() == After(cfg, true, old(State()), Request(key, used, at, cleanAt))
      ensures allowed ==> retryAfter == 0
      ensures !allowed ==> retryAfter == RetryAfter(cfg, BucketFor(cfg, old(buckets), key, at), at)
    {
      var b := GetOrCreateBucket(key, at);
      b := b.(lastUsed := used / SECOND);
      var level := LevelAt(cfg, b, at);
      allowed, retryAfter := level >= SECOND, 0;
      if allowed {
        b := b.(level := level - SECOND, last := at);
      } else {
        retryAfter := RetryAfter(cfg, b, at);
      }
      buckets := buckets[key := b];
      MaybeCleanup(cleanAt);
    }

    method Reset(now: nat) returns (count: nat)
      modifies this
      ensures count == |old(buckets)| && State() == PoolState(map[], Some(now))
    {
      count := |buckets|;
      buckets, lastClean := map[], Some(now);
    }

    method ResetKey(key: string) returns (existed: bool)
      modifies this
      ensures existed == (key in old(buckets))
      ensures State() == PoolState(old(buckets) - {key}, old(lastClean))
    {
      existed := key in buckets;
      buckets := buckets - {key};
    }
  }

  // ----- the advertised wait

  /** The time until a token is there, cut to seconds, plus a second. */
  function RetryAfter(cfg: Config, b: Bucket, t: nat): nat {
    if cfg.rps == 0 || LevelAt(cfg, b, t) >= SECOND then SECOND
    else
      var delay := (SECOND - LevelAt(cfg, b, t)) / cfg.rps;
      delay / SECOND * SECOND + SECOND
  }

  /** A denied client that waits as told, alone, is then allowed. */
  lemma WaitingAsToldIsEnough(cfg: Config, b: Bucket, t: nat)
    requires cfg.rps > 0 && cfg.burst > 0 && b.last <= t && LevelAt(cfg, b, t) < SECOND
    ensures LevelAt(cfg, b, t + RetryAfter(cfg, b, t)) >= SECOND
  {
    var missing := SECOND - LevelAt(cfg, b, t);
    var delay, wait := missing / cfg.rps, RetryAfter(cfg, b, t);
    assert Capacity(cfg) >= SECOND by { Scaled(1, cfg.burst, SECOND); }
    assert wait > delay;
    assert cfg.rps * delay + missing % cfg.rps == missing;
    Scaled(delay + 1, wait, cfg.rps);
    assert cfg.rps * (t + wait - b.last) == cfg.rps * (t - b.last) + cfg.rps * wait;
  }

  /** And the wait is no longer than whole seconds require: a second earlier there is at most one
      token. */
  lemma WaitIsTight(cfg: Config, b: Bucket, t: nat)
    requires cfg.rps > 0 && cfg.burst > 0 && b.last <= t && LevelAt(cfg, b, t) < 1_000_000_000
    ensures var wait := RetryAfter(cfg, b, t);
      wait >= 1_000_000_000 && wait % 1_000_000_000 == 0 && LevelAt(cfg, b, t + wait - 1_000_000_000) <= 1_000_000_000
  {
    var missing := SECOND - LevelAt(cfg, b, t);
    var delay, wait := missing / cfg.rps, RetryAfter(cfg, b, t);
    WholeSeconds(delay, wait);
    assert cfg.rps * delay + missing % cfg.rps == missing;
    Scaled(wait - SECOND, delay, cfg.rps);
    Scaled(1, cfg.burst, SECOND);
    LevelLater(cfg, b, t, wait - SECOND);
  }

  lemma WholeSeconds(delay: nat, wait: nat)
    requires wait == delay / SECOND * SECOND + SECOND
    ensures wait % SECOND == 0 && SECOND <= wait <= delay + SECOND
  {
  }

  lemma LevelLater(cfg: Config, b: Bucket, t: nat, d: nat)
    requires b.last <= t
    ensures LevelAt(cfg, b, t) < Capacity(cfg) ==> LevelAt(cfg, b, t + d) <= LevelAt(cfg, b, t) + cfg.rps * d
  {
    assert cfg.rps * (t + d - b.last) == cfg.rps * (t - b.last) + cfg.rps * d;
  }

  /** A request is admitted exactly if its bucket has filled up to a token by then; a new bucket is
      full. */
  lemma AdmitsIff(cfg: Config, buckets: Buckets, key: string, t: nat)
    ensures Admits(cfg, buckets, key, t) <==>
      && cfg.burst >= 1
      && (key in buckets ==> var b := buckets[key];
            b.level + cfg.rps * (if t > b.last then t - b.last else 0) >= 1_000_000_000)
  {
    if cfg.burst >= 1 { Scaled(1, cfg.burst, SECOND); }
  }

  /** A request that is admitted draws one token at time `t`, and any request marks the second of
      its first reading; nothing else changes. */
  lemma UseDraws(cfg: Config, buckets: Buckets, key: string, u: nat, t: nat)
    ensures var b, used := BucketFor(cfg, buckets, key, t), Used(cfg, buckets, key, u, t);
      && used.lastUsed == u / 1_000_000_000
      && (Admits(cfg, buckets, key, t) ==> used.last == t && used.level == LevelAt(cfg, b, t) - 1_000_000_000)
      && (!Admits(cfg, buckets, key, t) ==> used.last == b.last && used.level == b.level)
    ensures key in buckets ==> BucketFor(cfg, buckets, key, t) == buckets[key]
    ensures key !in buckets ==> LevelAt(cfg, BucketFor(cfg, buckets, key, t), t) == cfg.burst * 1_000_000_000
  {
  }

  lemma Scaled(a: int, b: int, c: nat)
    requires a <= b
    ensures a * c <= b * c && c * a <= c * b
  {
  }

  // ----- runs

  datatype PoolState = PoolState(buckets: Buckets, lastClean: Option<nat>)

  /** The three clock readings of a request. */
  datatype Request = Request(key: string, used: nat, at: nat, cleanAt: nat)

  const EMPTY := PoolState(map[], None)

  /** The pool after a request, with cleanup or without. */
  function After(cfg: Config, cleaning: bool, p: PoolState, r: Request): PoolState {
    var buckets := p.buckets[r.key := Used(cfg, p.buckets, r.key, r.used, r.at)];
    if cleaning && CleanupDue(p.lastClean, r.cleanAt) then PoolState(Swept(buckets, r.cleanAt), Some(r.cleanAt))
    else PoolState(buckets, p.lastClean)
  }

  function Run(cfg: Config, cleaning: bool, reqs: seq<Request>): PoolState {
    if reqs == [] then EMPTY
    else After(cfg, cleaning, Run(cfg, cleaning, reqs[..|reqs| - 1]), reqs[|reqs| - 1])
  }

  /** The decision on request `n` of a run. */
  predicate Decision(cfg: Config, cleaning: bool, reqs: seq<Request>, n: nat)
    requires n < |reqs|
  {
    Admits(cfg, Run(cfg, cleaning, reqs[..n]).buckets, reqs[n].key, reqs[n].at)
  }

  /** Requests in the order in which they take their tokens. The clock does not run backwards, and
      the first two readings of a request are at most `gap` apart; the first may precede the
      requests served before. */
  ghost predicate Ordered(reqs: seq<Request>, gap: nat) {
    && (forall i :: 0 <= i < |reqs| ==>
          reqs[i].used <= reqs[i].at <= reqs[i].used + gap && reqs[i].at <= reqs[i].cleanAt)
    && (forall i, j :: 0 <= i < j < |reqs| ==> reqs[i].cleanAt <= reqs[j].at)
  }

  // ----- cleanup is invisible, exactly when the longest refill fits in the idle time

  /** A bucket misses at most a burst, and is full by the time it can be found stale: that is more
      than ten minutes after the first reading of its last request. */
  predicate RefillsWhileKept(cfg: Config, gap: nat) {
    Capacity(cfg) <= cfg.rps * (KEEP_SECONDS * SECOND + 1 - gap)
  }

  /** The cleaning pool `p` has some of the buckets of the other, and those it lacks are full by
      time `t`; no bucket was drawn on more than `gap` after its time of last use. */
  ghost predicate SameDecisions(cfg: Config, p: Buckets, q: Buckets, t: nat, gap: nat) {
    && (forall k :: k in p ==> k in q && p[k] == q[k])
    && (forall k :: k in q && k !in p ==> LevelAt(cfg, q[k], t) == Capacity(cfg))
    && (forall k :: k in q ==> q[k].last <= t && q[k].last < (q[k].lastUsed + 1) * SECOND + gap)
  }

  lemma LevelGrows(cfg: Config, b: Bucket, t: nat, t': nat)
    requires t <= t'
    ensures LevelAt(cfg, b, t) <= LevelAt(cfg, b, t')
  {
    var d, d' := if t > b.last then t - b.last else 0, if t' > b.last then t' - b.last else 0;
    Scaled(d, d', cfg.rps);
  }

  lemma SameDecisionsLater(cfg: Config, p: Buckets, q: Buckets, t: nat, t': nat, gap: nat)
    requires SameDecisions(cfg, p, q, t, gap) && t <= t'
    ensures SameDecisions(cfg, p, q, t', gap)
  {
    forall k | k in q && k !in p ensures LevelAt(cfg, q[k], t') == Capacity(cfg) {
      LevelGrows(cfg, q[k], t, t');
    }
  }

  lemma SecondOf(u: nat, t: nat, gap: nat)
    requires t <= u + gap
    ensures t < (u / SECOND + 1) * SECOND + gap
  {
  }

  lemma SameAfterUse(cfg: Config, p: Buckets, q: Buckets, key: string, u: nat, t: nat, gap: nat)
    requires cfg.burst > 0 && SameDecisions(cfg, p, q, t, gap) && t <= u + gap
    ensures Admits(cfg, p, key, t) == Admits(cfg, q, key, t)
    ensures SameDecisions(cfg, p[key := Used(cfg, p, key, u, t)], q[key := Used(cfg, q, key, u, t)], t, gap)
  {
    SecondOf(u, t, gap);
    Scaled(1, cfg.burst, SECOND);
    assert LevelAt(cfg, NewBucket(cfg, t), t) == Capacity(cfg);
    assert Used(cfg, p, key, u, t) == Used(cfg, q, key, u, t);
  }

  /** A bucket found stale has not been drawn on for more than ten minutes, rounding included,
      less the gap between the readings. */
  lemma StaleIsIdle(b: Bucket, now: nat, gap: nat)
    requires Stale(b, now) && b.last < (b.lastUsed + 1) * SECOND + gap
    ensures now - b.last >= KEEP_SECONDS * SECOND + 1 - gap
  {
    var since: int := now as int - KEEP_SECONDS * SECOND;
    assert b.lastUsed + 1 <= since / SECOND;
    Scaled(b.lastUsed + 1, since / SECOND, SECOND);
    assert since / SECOND * SECOND <= since;
  }

  lemma StaleIsFull(cfg: Config, b: Bucket, now: nat, gap: nat)
    requires RefillsWhileKept(cfg, gap) && Stale(b, now) && b.last < (b.lastUsed + 1) * SECOND + gap && b.last <= now
    ensures LevelAt(cfg, b, now) == Capacity(cfg)
  {
    StaleIsIdle(b, now, gap);
    Scaled(KEEP_SECONDS * SECOND + 1 - gap, now - b.last, cfg.rps);
  }

  lemma SameAfterSweep(cfg: Config, p: Buckets, q: Buckets, now: nat, gap: nat)
    requires RefillsWhileKept(cfg, gap) && SameDecisions(cfg, p, q, now, gap)
    ensures SameDecisions(cfg, Swept(p, now), q, now, gap)
  {
    forall k | k in q && k !in Swept(p, now) ensures LevelAt(cfg, q[k], now) == Capacity(cfg) {
      if k in p { StaleIsFull(cfg, q[k], now, gap); }
    }
  }

  lemma SameAfterRequest(cfg: Config, p: PoolState, q: PoolState, t: nat, r: Request, gap: nat)
    requires cfg.burst > 0 && RefillsWhileKept(cfg, gap) && t <= r.at <= r.cleanAt && r.at <= r.used + gap
    requires SameDecisions(cfg, p.buckets, q.buckets, t, gap)
    ensures Admits(cfg, p.buckets, r.key, r.at) == Admits(cfg, q.buckets, r.key, r.at)
    ensures SameDecisions(cfg, After(cfg, true, p, r).buckets, After(cfg, false, q, r).buckets, r.cleanAt, gap)
  {
    SameDecisionsLater(cfg, p.buckets, q.buckets, t, r.at, gap);
    SameAfterUse(cfg, p.buckets, q.buckets, r.key, r.used, r.at, gap);
    var p1 := p.buckets[r.key := Used(cfg, p.buckets, r.key, r.used, r.at)];
    var q1 := q.buckets[r.key := Used(cfg, q.buckets, r.key, r.used, r.at)];
    SameDecisionsLater(cfg, p1, q1, r.at, r.cleanAt, gap);
    SameAfterSweep(cfg, p1, q1, r.cleanAt, gap);
  }

  /** The time up to which the first `n` requests have been served. */
  function Served(reqs: seq<Request>, n: nat): nat
    requires n <= |reqs|
  {
    if n == 0 then 0 else reqs[n - 1].cleanAt
  }

  lemma RelatedAfter(cfg: Config, front: seq<Request>, r: Request, t: nat, gap: nat)
    requires cfg.burst > 0 && RefillsWhileKept(cfg, gap) && t <= r.at <= r.cleanAt && r.at <= r.used + gap
    requires SameDecisions(cfg, Run(cfg, true, front).buckets, Run(cfg, false, front).buckets, t, gap)
    ensures SameDecisions(cfg, Run(cfg, true, front + [r]).buckets, Run(cfg, false, front + [r]).buckets,
                          r.cleanAt, gap)
  {
    SameAfterRequest(cfg, Run(cfg, true, front), Run(cfg, false, front), t, r, gap);
    RunOneMore(cfg, true, front, r);
    RunOneMore(cfg, false, front, r);
  }

  lemma NothingRelated(cfg: Config, gap: nat)
    ensures SameDecisions(cfg, Run(cfg, true, []).buckets, Run(cfg, false, []).buckets, 0, gap)
  {
  }

  lemma {:induction false} RunsRelated(cfg: Config, reqs: seq<Request>, n: nat, gap: nat)
    requires cfg.burst > 0 && RefillsWhileKept(cfg, gap) && Ordered(reqs, gap) && n <= |reqs|
    ensures SameDecisions(cfg, Run(cfg, true, reqs[..n]).buckets, Run(cfg, false, reqs[..n]).buckets,
                          Served(reqs, n), gap)
  {
    if n == 0 {
      assert reqs[..0] == [];
      NothingRelated(cfg, gap);
    } else {
      RunsRelated(cfg, reqs, n - 1, gap);
      RelatedAfter(cfg, reqs[..n - 1], reqs[n - 1], Served(reqs, n - 1), gap);
      assert reqs[..n] == reqs[..n - 1] + [reqs[n - 1]];
    }
  }

  lemma RunOneMore(cfg: Config, cleaning: bool, reqs: seq<Request>, r: Request)
    ensures Run(cfg, cleaning, reqs + [r]) == After(cfg, cleaning, Run(cfg, cleaning, reqs), r)
  {
    assert (reqs + [r])[..|reqs|] == reqs;
  }

  lemma DecisionsAgree(cfg: Config, reqs: seq<Request>, n: nat, gap: nat)
    requires cfg.burst > 0 && RefillsWhileKept(cfg, gap) && Ordered(reqs, gap) && n < |reqs|
    ensures Decision(cfg, true, reqs, n) == Decision(cfg, false, reqs, n)
  {
    RunsRelated(cfg, reqs, n, gap);
    SameAfterRequest(cfg, Run(cfg, true, reqs[..n]), Run(cfg, false, reqs[..n]), Served(reqs, n), reqs[n], gap);
  }

  // ----- how much gets through

  function CountIn(v: seq<bool>, i: nat, j: nat): nat
    requires i <= j <= |v|
    decreases j
  {
    if i == j then 0 else CountIn(v, i, j - 1) + if v[j - 1] then 1 else 0
  }

  /** Which requests of a run are for `key` and allowed. */
  function Allowed(cfg: Config, cleaning: bool, reqs: seq<Request>, key: string): (v: seq<bool>)
    ensures |v| == |reqs|
  {
    seq(|reqs|, m requires 0 <= m < |reqs| => reqs[m].key == key && Decision(cfg, cleaning, reqs, m))
  }

  /** Allowed requests for `key` among those numbered `i` up to `j`. */
  function AllowedIn(cfg: Config, cleaning: bool, reqs: seq<Request>, key: string, i: nat, j: nat): nat
    requires i <= j <= |reqs|
  {
    CountIn(Allowed(cfg, cleaning, reqs, key), i, j)
  }

  lemma SameCount(cfg: Config, reqs: seq<Request>, key: string, i: nat, j: nat, gap: nat)
    requires cfg.burst > 0 && RefillsWhileKept(cfg, gap) && Ordered(reqs, gap) && i <= j <= |reqs|
    ensures AllowedIn(cfg, true, reqs, key, i, j) == AllowedIn(cfg, false, reqs, key, i, j)
  {
    forall m | 0 <= m < |reqs| ensures Decision(cfg, true, reqs, m) == Decision(cfg, false, reqs, m) {
      DecisionsAgree(cfg, reqs, m, gap);
    }
    assert Allowed(cfg, true, reqs, key) == Allowed(cfg, false, reqs, key);
  }

  /** The level a key is treated as having. */
  function Level(cfg: Config, buckets: Buckets, key: string, t: nat): nat {
    LevelAt(cfg, BucketFor(cfg, buckets, key, t), t)
  }

  ghost predicate InOrder(reqs: seq<Request>) {
    forall i, j :: 0 <= i < j < |reqs| ==> reqs[i].at <= reqs[j].at
  }

  /** Waiting adds at most the refill of the time waited. */
  lemma LevelSlope(cfg: Config, buckets: Buckets, key: string, t: nat, t': nat)
    requires t <= t' && (key in buckets ==> buckets[key].last <= t)
    ensures Level(cfg, buckets, key, t') <= Level(cfg, buckets, key, t) + cfg.rps * (t' - t)
  {
    if key in buckets {
      var b := buckets[key];
      Distributes(cfg.rps, t - b.last, t' - t);
      assert (t - b.last) + (t' - t) == t' - b.last;
    }
  }

  lemma {:induction false} NoFutureRefill(cfg: Config, reqs: seq<Request>, n: nat, key: string)
    requires InOrder(reqs) && n <= |reqs| && key in Run(cfg, false, reqs[..n]).buckets
    ensures n > 0 && Run(cfg, false, reqs[..n]).buckets[key].last <= reqs[n - 1].at
  {
    if n > 0 {
      assert reqs[..n][..n - 1] == reqs[..n - 1];
      if key in Run(cfg, false, reqs[..n - 1]).buckets {
        NoFutureRefill(cfg, reqs, n - 1, key);
      }
    }
  }

  /** What a request does to the level of a key at that moment. */
  lemma LevelAfter(cfg: Config, p: PoolState, r: Request, key: string)
    ensures Level(cfg, After(cfg, false, p, r).buckets, key, r.at)
         <= Level(cfg, p.buckets, key, r.at) - if r.key == key && Admits(cfg, p.buckets, key, r.at) then SECOND else 0
  {
  }

  /** Tokens spent since request `i` and tokens left, just after request `j - 1`. */
  ghost function Budget(cfg: Config, reqs: seq<Request>, key: string, i: nat, j: nat): int
    requires i < j <= |reqs|
  {
    AllowedIn(cfg, false, reqs, key, i, j) * SECOND
    + Level(cfg, Run(cfg, false, reqs[..j]).buckets, key, reqs[j - 1].at)
  }

  lemma LastRequest(cfg: Config, reqs: seq<Request>, key: string, i: nat, j: nat)
    requires i < j <= |reqs|
    ensures Budget(cfg, reqs, key, i, j)
         <= AllowedIn(cfg, false, reqs, key, i, j - 1) * SECOND
          + Level(cfg, Run(cfg, false, reqs[..j - 1]).buckets, key, reqs[j - 1].at)
  {
    var r, front := reqs[j - 1], reqs[..j - 1];
    assert reqs[..j] == front + [r];
    RunOneMore(cfg, false, front, r);
    LevelAfter(cfg, Run(cfg, false, front), r, key);
  }

  lemma RefillBetween(cfg: Config, reqs: seq<Request>, key: string, j: nat)
    requires InOrder(reqs) && 1 < j <= |reqs|
    ensures Level(cfg, Run(cfg, false, reqs[..j - 1]).buckets, key, reqs[j - 1].at)
         <= Level(cfg, Run(cfg, false, reqs[..j - 1]).buckets, key, reqs[j - 2].at)
          + cfg.rps * (reqs[j - 1].at - reqs[j - 2].at)
  {
    var p := Run(cfg, false, reqs[..j - 1]).buckets;
    if key in p { NoFutureRefill(cfg, reqs, j - 1, key); }
    LevelSlope(cfg, p, key, reqs[j - 2].at, reqs[j - 1].at);
  }

  lemma BudgetStep(cfg: Config, reqs: seq<Request>, key: string, i: nat, j: nat)
    requires InOrder(reqs) && i + 1 < j <= |reqs|
    ensures Budget(cfg, reqs, key, i, j)
         <= Budget(cfg, reqs, key, i, j - 1) + cfg.rps * (reqs[j - 1].at - reqs[j - 2].at)
  {
    LastRequest(cfg, reqs, key, i, j);
    RefillBetween(cfg, reqs, key, j);
  }

  lemma FirstBudget(cfg: Config, reqs: seq<Request>, key: string, i: nat)
    requires i < |reqs|
    ensures Budget(cfg, reqs, key, i, i + 1) <= Capacity(cfg)
  {
    LastRequest(cfg, reqs, key, i, i + 1);
  }

  lemma Distributes(c: int, a: int, b: int)
    ensures c * (a + b) == c * a + c * b
  {
  }

  /** Growth by at most `rate` per unit of time, from one entry to the next. */
  ghost predicate GrowsAtMost(x: seq<int>, at: seq<int>, rate: int)
    requires |x| == |at|
  {
    forall k :: 0 < k < |x| ==> x[k] <= x[k - 1] + rate * (at[k] - at[k - 1])
  }

  lemma {:induction false} Telescope(x: seq<int>, at: seq<int>, rate: int, n: nat)
    requires |x| == |at| && n < |x| && GrowsAtMost(x, at, rate)
    ensures x[n] <= x[0] + rate * (at[n] - at[0])
  {
    if n > 0 {
      Telescope(x, at, rate, n - 1);
      Distributes(rate, at[n] - at[n - 1], at[n - 1] - at[0]);
    }
  }

  ghost function Budgets(cfg: Config, reqs: seq<Request>, key: string, i: nat, j: nat): (x: seq<int>)
    requires i < j <= |reqs|
    ensures |x| == j - i
  {
    seq(j - i, k requires 0 <= k < j - i => Budget(cfg, reqs, key, i, i + k + 1))
  }

  function Times(reqs: seq<Request>, i: nat, j: nat): (at: seq<int>)
    requires i < j <= |reqs|
    ensures |at| == j - i
  {
    seq(j - i, k requires 0 <= k < j - i => reqs[i + k].at)
  }

  lemma BudgetsGrow(cfg: Config, reqs: seq<Request>, key: string, i: nat, j: nat)
    requires InOrder(reqs) && i < j <= |reqs|
    ensures GrowsAtMost(Budgets(cfg, reqs, key, i, j), Times(reqs, i, j), cfg.rps)
  {
    var x, at := Budgets(cfg, reqs, key, i, j), Times(reqs, i, j);
    forall k | 0 < k < |x| ensures x[k] <= x[k - 1] + cfg.rps * (at[k] - at[k - 1]) {
      BudgetStep(cfg, reqs, key, i, i + k + 1);
    }
  }

  /** Tokens spent and tokens left never exceed a full bucket and the refill since. */
  lemma SpentAndLeft(cfg: Config, reqs: seq<Request>, key: string, i: nat, j: nat)
    requires InOrder(reqs) && i < j <= |reqs|
    ensures Budget(cfg, reqs, key, i, j) <= Capacity(cfg) + cfg.rps * (reqs[j - 1].at - reqs[i].at)
  {
    BudgetsGrow(cfg, reqs, key, i, j);
    FirstBudget(cfg, reqs, key, i);
    Telescope(Budgets(cfg, reqs, key, i, j), Times(reqs, i, j), cfg.rps, j - i - 1);
  }

  /** In any window of a run with cleanup, the requests allowed for one key number at most the
      burst plus what the rate yields in the time of the window, if idle buckets refill in time. */
  lemma WindowBound(cfg: Config, reqs: seq<Request>, key: string, i: nat, j: nat, gap: nat)
    requires cfg.burst > 0 && RefillsWhileKept(cfg, gap) && Ordered(reqs, gap) && i < j <= |reqs|
    ensures AllowedIn(cfg, true, reqs, key, i, j) * SECOND
         <= cfg.burst * SECOND + cfg.rps * (reqs[j - 1].at - reqs[i].at)
  {
    SameCount(cfg, reqs, key, i, j, gap);
    SpentAndLeft(cfg, reqs, key, i, j);
  }
}
