/**
 Requests one after another: none is begun before the cleanup of the one before it. The exact
 condition under which removing stale buckets then changes no decision is weaker than for requests
 that overlap, because a bucket refills between the marking and the draw.
 */
module RateSequential {
  import opened Options
  import opened RatePool
  import opened RateCleanup

  /** A bucket emptied before the marking has refilled for the gap when the
      last token is drawn, so at most one more token is missing; and a token drawn from a full
      bucket as late as the gap allows is back in time. */
  predicate RefillsAlone(cfg: Config, gap: nat) {
    && Capacity(cfg) + Min(cfg.rps * gap, SECOND) <= cfg.rps * (KEPT + 1)
    && SECOND <= cfg.rps * (KEPT + 1 - gap)
  }

  /** In whole numbers of nanoseconds and billionths of a token. */
  lemma AloneCondition(cfg: Config, gap: nat)
    ensures RefillsAlone(cfg, gap) <==>
      && (|| cfg.burst * 1_000_000_000 + cfg.rps * gap <= cfg.rps * 600_000_000_001
          || (cfg.rps * gap >= 1_000_000_000 && (cfg.burst + 1) * 1_000_000_000 <= cfg.rps * 600_000_000_001))
      && 1_000_000_000 <= cfg.rps * (600_000_000_001 - gap)
  {
  }

  /** The condition for requests that overlap is enough for requests that do not. */
  lemma RefillsAloneToo(cfg: Config, gap: nat)
    requires cfg.burst > 0 && RefillsWhileKept(cfg, gap)
    ensures RefillsAlone(cfg, gap)
  {
    Scaled(1, cfg.burst, SECOND);
    Distributes(cfg.rps, KEPT + 1 - gap, gap);
    assert (KEPT + 1 - gap) + gap == KEPT + 1;
  }

  // ----- buckets are full by the time they can be stale

  /** Full by the time at which it can first be found stale. */
  ghost predicate FullInTime(cfg: Config, b: Bucket) {
    b.level + cfg.rps * ((b.lastUsed + 1) * SECOND + KEPT - b.last) >= Capacity(cfg)
  }

  lemma NewIsFullInTime(cfg: Config, now: nat)
    ensures FullInTime(cfg, NewBucket(cfg, now))
  {
    SecondOf(now, now, 0);
    Scaled(0, (now / SECOND + 1) * SECOND + KEPT - now, cfg.rps);
  }

  lemma MarkedIsFullInTime(cfg: Config, b: Bucket, second: nat)
    requires FullInTime(cfg, b) && b.lastUsed <= second
    ensures FullInTime(cfg, b.(lastUsed := second))
  {
    Scaled(b.lastUsed + 1, second + 1, SECOND);
    Scaled((b.lastUsed + 1) * SECOND + KEPT - b.last, (second + 1) * SECOND + KEPT - b.last, cfg.rps);
  }

  /** What is left after the draw and what comes back in time make a full bucket. */
  lemma DrawLeavesEnough(cfg: Config, gap: nat, level: nat, wait: nat)
    requires RefillsAlone(cfg, gap) && wait <= gap
    requires SECOND <= level <= Capacity(cfg) && (level == Capacity(cfg) || level >= cfg.rps * wait)
    ensures level - SECOND + cfg.rps * (KEPT + 1 - wait) >= Capacity(cfg)
  {
    Scaled(wait, gap, cfg.rps);
    Distributes(cfg.rps, KEPT + 1 - wait, wait);
    assert (KEPT + 1 - wait) + wait == KEPT + 1;
    Scaled(KEPT + 1 - gap, KEPT + 1 - wait, cfg.rps);
  }

  lemma DrawnIsFullInTime(cfg: Config, b: Bucket, used: nat, now: nat, gap: nat)
    requires RefillsAlone(cfg, gap) && b.last <= used <= now <= used + gap && b.lastUsed == used / SECOND
    requires LevelAt(cfg, b, now) >= SECOND
    ensures FullInTime(cfg, b.(level := LevelAt(cfg, b, now) - SECOND, last := now))
  {
    var level, wait := LevelAt(cfg, b, now), now - used;
    Scaled(wait, now - b.last, cfg.rps);
    DrawLeavesEnough(cfg, gap, level, wait);
    SecondOf(used, used, 0);
    Scaled(KEPT + 1 - wait, (used / SECOND + 1) * SECOND + KEPT - now, cfg.rps);
  }

  lemma StaleIsFullInTime(cfg: Config, b: Bucket, now: nat)
    requires FullInTime(cfg, b) && Stale(b, now) && b.last <= now
    ensures LevelAt(cfg, b, now) == Capacity(cfg)
  {
    var since: int := now as int - KEPT;
    assert b.lastUsed + 1 <= since / SECOND;
    Scaled(b.lastUsed + 1, since / SECOND, SECOND);
    assert since / SECOND * SECOND <= since;
    Scaled((b.lastUsed + 1) * SECOND + KEPT - b.last, now - b.last, cfg.rps);
  }

  // ----- cleanup is invisible

  /** Like `Ordered`, but every request begins after the one before it has cleaned up. */
  ghost predicate Sequential(reqs: seq<Request>, gap: nat) {
    && (forall i :: 0 <= i < |reqs| ==>
          reqs[i].used <= reqs[i].at <= reqs[i].used + gap && reqs[i].at <= reqs[i].cleanAt)
    && (forall i, j :: 0 <= i < j < |reqs| ==> reqs[i].cleanAt <= reqs[j].used)
  }

  ghost predicate InTime(cfg: Config, b: Bucket, t: nat) {
    b.last <= t && b.lastUsed <= t / SECOND && FullInTime(cfg, b)
  }

  /** The cleaning pool `p` has some of the buckets of the other, and those it lacks are full. */
  ghost predicate Alike(cfg: Config, p: Buckets, q: Buckets, t: nat) {
    && (forall k :: k in p ==> k in q && p[k] == q[k])
    && (forall k :: k in q && k !in p ==> LevelAt(cfg, q[k], t) == Capacity(cfg))
    && (forall k :: k in q ==> InTime(cfg, q[k], t))
  }

  lemma LaterInTime(cfg: Config, b: Bucket, t: nat, t': nat)
    requires InTime(cfg, b, t) && t <= t'
    ensures InTime(cfg, b, t')
  {
  }

  lemma AlikeLater(cfg: Config, p: Buckets, q: Buckets, t: nat, t': nat)
    requires Alike(cfg, p, q, t) && t <= t'
    ensures Alike(cfg, p, q, t')
  {
    forall k | k in q ensures InTime(cfg, q[k], t') {
      LaterInTime(cfg, q[k], t, t');
    }
    forall k | k in q && k !in p ensures LevelAt(cfg, q[k], t') == Capacity(cfg) {
      LevelGrows(cfg, q[k], t, t');
    }
  }

  /** The bucket a request leaves behind. */
  lemma UsedInTime(cfg: Config, q: Buckets, key: string, u: nat, t: nat, gap: nat)
    requires cfg.burst > 0 && RefillsAlone(cfg, gap) && u <= t <= u + gap
    requires key in q ==> InTime(cfg, q[key], u)
    ensures InTime(cfg, Used(cfg, q, key, u, t), t)
  {
    Scaled(1, cfg.burst, SECOND);
    var b := if key in q then q[key].(lastUsed := u / SECOND) else NewBucket(cfg, u);
    if key in q {
      MarkedIsFullInTime(cfg, q[key], u / SECOND);
    } else {
      NewIsFullInTime(cfg, u);
      Scaled(0, t - u, cfg.rps);
    }
    assert LevelAt(cfg, b, t) == LevelAt(cfg, BucketFor(cfg, q, key, t), t);
    if LevelAt(cfg, b, t) >= SECOND {
      DrawnIsFullInTime(cfg, b, u, t, gap);
    }
  }

  lemma AlikeAfterUse(cfg: Config, p: Buckets, q: Buckets, key: string, u: nat, t: nat, gap: nat)
    requires cfg.burst > 0 && RefillsAlone(cfg, gap) && u <= t <= u + gap && Alike(cfg, p, q, u)
    ensures Admits(cfg, p, key, t) == Admits(cfg, q, key, t)
    ensures Alike(cfg, p[key := Used(cfg, p, key, u, t)], q[key := Used(cfg, q, key, u, t)], t)
  {
    UsedInTime(cfg, q, key, u, t, gap);
    AlikeLater(cfg, p, q, u, t);
    Scaled(1, cfg.burst, SECOND);
    assert LevelAt(cfg, NewBucket(cfg, t), t) == Capacity(cfg);
    assert Used(cfg, p, key, u, t) == Used(cfg, q, key, u, t);
  }

  lemma AlikeAfterSweep(cfg: Config, p: Buckets, q: Buckets, now: nat)
    requires Alike(cfg, p, q, now)
    ensures Alike(cfg, Swept(p, now), q, now)
  {
    forall k | k in q && k !in Swept(p, now) ensures LevelAt(cfg, q[k], now) == Capacity(cfg) {
      if k in p { StaleIsFullInTime(cfg, q[k], now); }
    }
  }

  lemma AlikeAfterRequest(cfg: Config, p: PoolState, q: PoolState, t: nat, r: Request, gap: nat)
    requires cfg.burst > 0 && RefillsAlone(cfg, gap) && t <= r.used <= r.at <= r.used + gap && r.at <= r.cleanAt
    requires Alike(cfg, p.buckets, q.buckets, t)
    ensures Admits(cfg, p.buckets, r.key, r.at) == Admits(cfg, q.buckets, r.key, r.at)
    ensures Alike(cfg, After(cfg, true, p, r).buckets, After(cfg, false, q, r).buckets, r.cleanAt)
  {
    AlikeLater(cfg, p.buckets, q.buckets, t, r.used);
    AlikeAfterUse(cfg, p.buckets, q.buckets, r.key, r.used, r.at, gap);
    var p1 := p.buckets[r.key := Used(cfg, p.buckets, r.key, r.used, r.at)];
    var q1 := q.buckets[r.key := Used(cfg, q.buckets, r.key, r.used, r.at)];
    AlikeLater(cfg, p1, q1, r.at, r.cleanAt);
    AlikeAfterSweep(cfg, p1, q1, r.cleanAt);
  }

  lemma AlikeOneMore(cfg: Config, front: seq<Request>, r: Request, t: nat, gap: nat)
    requires cfg.burst > 0 && RefillsAlone(cfg, gap) && t <= r.used <= r.at <= r.used + gap && r.at <= r.cleanAt
    requires Alike(cfg, Run(cfg, true, front).buckets, Run(cfg, false, front).buckets, t)
    ensures Alike(cfg, Run(cfg, true, front + [r]).buckets, Run(cfg, false, front + [r]).buckets, r.cleanAt)
  {
    AlikeAfterRequest(cfg, Run(cfg, true, front), Run(cfg, false, front), t, r, gap);
    RunOneMore(cfg, true, front, r);
    RunOneMore(cfg, false, front, r);
  }

  lemma {:induction false} RunsAlike(cfg: Config, reqs: seq<Request>, n: nat, gap: nat)
    requires cfg.burst > 0 && RefillsAlone(cfg, gap) && Sequential(reqs, gap) && n <= |reqs|
    ensures Alike(cfg, Run(cfg, true, reqs[..n]).buckets, Run(cfg, false, reqs[..n]).buckets, Served(reqs, n))
  {
    if n == 0 {
      assert reqs[..0] == [];
    } else {
      RunsAlike(cfg, reqs, n - 1, gap);
      AlikeOneMore(cfg, reqs[..n - 1], reqs[n - 1], Served(reqs, n - 1), gap);
      assert reqs[..n] == reqs[..n - 1] + [reqs[n - 1]];
    }
  }

  lemma SequentialDecisionsAgree(cfg: Config, reqs: seq<Request>, n: nat, gap: nat)
    requires cfg.burst > 0 && RefillsAlone(cfg, gap) && Sequential(reqs, gap) && n < |reqs|
    ensures Decision(cfg, true, reqs, n) == Decision(cfg, false, reqs, n)
  {
    RunsAlike(cfg, reqs, n, gap);
    AlikeAfterRequest(cfg, Run(cfg, true, reqs[..n]), Run(cfg, false, reqs[..n]), Served(reqs, n), reqs[n], gap);
  }

  // ----- and visible otherwise

  /** Requests that are all over by time `t`. */
  ghost predicate OverBy(reqs: seq<Request>, t: nat) {
    forall i :: 0 <= i < |reqs| ==> reqs[i].cleanAt <= t
  }

  lemma {:induction false} CleanedBy(cfg: Config, reqs: seq<Request>, t: nat)
    requires OverBy(reqs, t)
    ensures var c := Run(cfg, true, reqs).lastClean; c.Some? ==> c.value <= t
  {
    if reqs != [] {
      CleanedBy(cfg, reqs[..|reqs| - 1], t);
    }
  }

  /** A last request marks its bucket in the last nanosecond of the first second, draws on it `wait`
      later and cleans up as soon as the bucket is stale. */
  function Last(wait: nat): Request {
    Request("a", EARLY, EARLY + wait, LATE)
  }

  /** What the bucket has by then if it is kept. */
  ghost function LevelThen(cfg: Config, before: seq<Request>, wait: nat): int {
    Level(cfg, Run(cfg, false, before).buckets, "a", EARLY + wait) - SECOND + cfg.rps * (KEPT + 1 - wait)
  }

  lemma KeptBucket(cfg: Config, before: seq<Request>, wait: nat)
    requires wait <= KEPT + 1 && Level(cfg, Run(cfg, false, before).buckets, "a", EARLY + wait) >= SECOND
    requires LevelThen(cfg, before, wait) < Capacity(cfg)
    ensures Level(cfg, Run(cfg, false, before + [Last(wait)]).buckets, "a", LATE) < Capacity(cfg)
  {
    RunOneMore(cfg, false, before, Last(wait));
    assert LATE - (EARLY + wait) == KEPT + 1 - wait;
  }

  lemma RemovedBucket(cfg: Config, before: seq<Request>, wait: nat)
    requires OverBy(before, EARLY)
    ensures Level(cfg, Run(cfg, true, before + [Last(wait)]).buckets, "a", LATE) == Capacity(cfg)
  {
    CleanedBy(cfg, before, EARLY);
    RunOneMore(cfg, true, before, Last(wait));
    var p := Run(cfg, true, before);
    assert Used(cfg, p.buckets, "a", EARLY, EARLY + wait).lastUsed == 0;
    assert CleanupDue(p.lastClean, LATE);
    assert "a" !in Run(cfg, true, before + [Last(wait)]).buckets;
  }

  /** A sequential run on which the decision of request `n` depends on cleanup. */
  ghost predicate Tells(cfg: Config, reqs: seq<Request>, gap: nat) {
    Sequential(reqs, gap) && reqs != []
    && Decision(cfg, true, reqs, |reqs| - 1) != Decision(cfg, false, reqs, |reqs| - 1)
  }

  lemma LevelsTell(cfg: Config, before: seq<Request>, wait: nat, reqs: seq<Request>)
    requires cfg.burst > 0 && OverBy(before, EARLY) && wait <= KEPT + 1
    requires Level(cfg, Run(cfg, false, before).buckets, "a", EARLY + wait) >= SECOND
    requires LevelThen(cfg, before, wait) < Capacity(cfg)
    requires reqs == before + [Last(wait)] + Burst("a", LATE, LATE, cfg.burst)
    ensures reqs != [] && Decision(cfg, true, reqs, |reqs| - 1) && !Decision(cfg, false, reqs, |reqs| - 1)
  {
    KeptBucket(cfg, before, wait);
    RemovedBucket(cfg, before, wait);
    BurstShows(cfg, before + [Last(wait)], LATE, reqs);
  }

  lemma StillSequential(before: seq<Request>, wait: nat, n: nat, gap: nat, reqs: seq<Request>)
    requires Sequential(before, gap) && OverBy(before, EARLY) && wait <= gap && wait <= KEPT + 1
    requires reqs == before + [Last(wait)] + Burst("a", LATE, LATE, n)
    ensures Sequential(reqs, gap)
  {
    var front := before + [Last(wait)];
    assert Sequential(front, gap) && OverBy(front, LATE);
    Appended(front, LATE, LATE, n, gap);
  }

  lemma Shows(cfg: Config, before: seq<Request>, wait: nat, gap: nat) returns (reqs: seq<Request>)
    requires cfg.burst > 0 && Sequential(before, gap) && OverBy(before, EARLY) && wait <= gap && wait <= KEPT + 1
    requires Level(cfg, Run(cfg, false, before).buckets, "a", EARLY + wait) >= SECOND
    requires LevelThen(cfg, before, wait) < Capacity(cfg)
    ensures Tells(cfg, reqs, gap)
  {
    reqs := before + [Last(wait)] + Burst("a", LATE, LATE, cfg.burst);
    LevelsTell(cfg, before, wait, reqs);
    StillSequential(before, wait, cfg.burst, gap, reqs);
  }

  lemma Appended(front: seq<Request>, t: nat, t': nat, n: nat, gap: nat)
    requires Sequential(front, gap) && OverBy(front, t) && t <= t'
    ensures Sequential(front + Burst("a", t', t', n), gap) && OverBy(front + Burst("a", t', t', n), t')
  {
  }

  /** `n` requests for "a" at one moment, after none. */
  lemma FirstDraws(cfg: Config, t: nat, n: nat, gap: nat)
    requires n <= cfg.burst
    ensures var reqs := Burst("a", t, t, n); var q := Run(cfg, false, reqs).buckets;
      && Sequential(reqs, gap) && OverBy(reqs, t)
      && (if n == 0 then "a" !in q else "a" in q && q["a"] == Bucket(Capacity(cfg) - n * SECOND, t, t / SECOND))
      && n * SECOND <= Capacity(cfg)
  {
    Scaled(n, cfg.burst, SECOND);
    assert [] + Burst("a", t, t, n) == Burst("a", t, t, n);
    Draws(cfg, false, [], "a", t, t, n);
    Appended([], t, t, n, gap);
    if n == 0 { assert Burst("a", t, t, 0) == []; }
  }

  lemma SlowRefillShows(cfg: Config, gap: nat) returns (reqs: seq<Request>)
    requires cfg.burst > 0 && Capacity(cfg) > cfg.rps * (KEPT + 1)
    ensures Tells(cfg, reqs, gap)
  {
    var before := Burst("a", EARLY, EARLY, cfg.burst - 1);
    FirstDraws(cfg, EARLY, cfg.burst - 1, gap);
    assert Capacity(cfg) == (cfg.burst - 1) * SECOND + SECOND;
    reqs := Shows(cfg, before, 0, gap);
  }

  lemma TimeForToken(rps: nat, gap: nat) returns (wait: nat)
    requires rps * gap >= SECOND
    ensures wait <= gap && wait <= SECOND && rps * wait >= SECOND && rps * wait <= rps * SECOND
  {
    wait := Min(gap, SECOND);
    if gap > SECOND { Scaled(1, rps, SECOND); }
    Scaled(wait, SECOND, rps);
  }

  lemma TokenInTheGapShows(cfg: Config, gap: nat) returns (reqs: seq<Request>)
    requires cfg.burst > 0 && cfg.rps * gap >= SECOND && Capacity(cfg) + SECOND > cfg.rps * (KEPT + 1)
    requires Capacity(cfg) <= cfg.rps * (KEPT + 1)
    ensures Tells(cfg, reqs, gap)
  {
    var wait := TimeForToken(cfg.rps, gap);
    var before := Burst("a", EARLY, EARLY, cfg.burst);
    FirstDraws(cfg, EARLY, cfg.burst, gap);
    Scaled(1, cfg.burst, SECOND);
    assert Level(cfg, Run(cfg, false, before).buckets, "a", EARLY + wait) == cfg.rps * wait;
    Distributes(cfg.rps, KEPT + 1 - wait, wait);
    assert (KEPT + 1 - wait) + wait == KEPT + 1;
    reqs := Shows(cfg, before, wait, gap);
  }

  /** The arithmetic of a gap too short for a token to come back. */
  lemma ShortGap(cfg: Config, gap: nat)
    requires cfg.burst > 0 && 0 < cfg.rps * gap < SECOND && Capacity(cfg) + cfg.rps * gap > cfg.rps * (KEPT + 1)
    ensures cfg.rps > 0 && 0 < gap < SECOND
    ensures cfg.rps * (SECOND - gap) == cfg.rps * SECOND - cfg.rps * gap
    ensures (cfg.rps - 1) * SECOND == cfg.rps * SECOND - SECOND
    ensures (cfg.rps - 1) * SECOND <= cfg.rps * (SECOND - gap) <= Capacity(cfg)
    ensures cfg.rps * SECOND <= Capacity(cfg)
    ensures cfg.rps * (KEPT + 1 - gap) < Capacity(cfg)
  {
    if gap >= SECOND { Scaled(1, cfg.rps, gap); }
    Distributes(cfg.rps, SECOND - gap, gap);
    Distributes(cfg.rps, KEPT + 1 - gap, gap);
    assert (KEPT + 1 - gap) + gap == KEPT + 1;
    Scaled(SECOND, KEPT + 1 - gap, cfg.rps);
  }

  /** The level of a bucket emptied at `gap - 1` at the end of the second, and what the gap adds. */
  lemma LevelsInGap(cfg: Config, gap: nat)
    requires cfg.burst > 0 && 0 < cfg.rps * gap < SECOND && Capacity(cfg) + cfg.rps * gap > cfg.rps * (KEPT + 1)
    ensures gap > 0 && LevelAt(cfg, Bucket(0, gap - 1, 0), EARLY) == cfg.rps * (SECOND - gap)
    ensures cfg.rps == 1 ==> LevelAt(cfg, Bucket(0, gap - 1, 0), EARLY + gap) == SECOND
    ensures cfg.rps > 0 && cfg.rps * (SECOND - gap) - (cfg.rps - 1) * SECOND >= 0
    ensures LevelAt(cfg, Bucket(cfg.rps * (SECOND - gap) - (cfg.rps - 1) * SECOND, EARLY, 0), EARLY + gap) == SECOND
  {
    ShortGap(cfg, gap);
    Scaled(1, cfg.burst, SECOND);
    assert EARLY - (gap - 1) == SECOND - gap && EARLY + gap - (gap - 1) == SECOND;
  }

  predicate GapWithoutToken(cfg: Config, gap: nat) {
    cfg.burst > 0 && 0 < cfg.rps * gap < SECOND && Capacity(cfg) + cfg.rps * gap > cfg.rps * (KEPT + 1)
  }

  /** Draws at the end of the second on a bucket emptied at `gap - 1`. */
  lemma LevelAfterDraws(cfg: Config, gap: nat, first: seq<Request>)
    requires GapWithoutToken(cfg, gap) && gap > 0 && cfg.rps > 0
    requires "a" in Run(cfg, false, first).buckets && Run(cfg, false, first).buckets["a"] == Bucket(0, gap - 1, 0)
    ensures var before := first + Burst("a", EARLY, EARLY, cfg.rps - 1);
      Level(cfg, Run(cfg, false, before).buckets, "a", EARLY + gap) == SECOND
  {
    ShortGap(cfg, gap);
    LevelsInGap(cfg, gap);
    var n := cfg.rps - 1;
    if n == 0 {
      assert first + Burst("a", EARLY, EARLY, 0) == first;
    } else {
      Draws(cfg, false, first, "a", EARLY, EARLY, n);
    }
  }

  /** Tokens drawn as they come back, so that exactly one is there at the end of the gap. */
  lemma OneTokenLeft(cfg: Config, gap: nat) returns (before: seq<Request>)
    requires GapWithoutToken(cfg, gap)
    ensures Sequential(before, gap) && OverBy(before, EARLY)
    ensures Level(cfg, Run(cfg, false, before).buckets, "a", EARLY + gap) == SECOND
  {
    ShortGap(cfg, gap);
    var first := Burst("a", gap - 1, gap - 1, cfg.burst);
    FirstDraws(cfg, gap - 1, cfg.burst, gap);
    Appended(first, gap - 1, EARLY, cfg.rps - 1, gap);
    LevelAfterDraws(cfg, gap, first);
    before := first + Burst("a", EARLY, EARLY, cfg.rps - 1);
  }

  lemma DrawnAtTheEndShows(cfg: Config, gap: nat) returns (reqs: seq<Request>)
    requires cfg.burst > 0 && 0 < cfg.rps * gap < SECOND && Capacity(cfg) + cfg.rps * gap > cfg.rps * (KEPT + 1)
    ensures Tells(cfg, reqs, gap)
  {
    ShortGap(cfg, gap);
    var before := OneTokenLeft(cfg, gap);
    reqs := Shows(cfg, before, gap, gap);
  }

  lemma LateTokenShows(cfg: Config, gap: nat) returns (reqs: seq<Request>)
    requires cfg.burst > 0 && SECOND > cfg.rps * (KEPT + 1 - gap)
    ensures Tells(cfg, reqs, gap)
  {
    Scaled(1, cfg.burst, SECOND);
    var wait := Min(gap, KEPT + 1);
    reqs := Shows(cfg, [], wait, gap);
  }

  lemma SequentialCleanupShows(cfg: Config, gap: nat) returns (reqs: seq<Request>)
    requires cfg.burst > 0 && !RefillsAlone(cfg, gap)
    ensures Tells(cfg, reqs, gap)
  {
    if SECOND > cfg.rps * (KEPT + 1 - gap) {
      reqs := LateTokenShows(cfg, gap);
    } else if Capacity(cfg) > cfg.rps * (KEPT + 1) {
      reqs := SlowRefillShows(cfg, gap);
    } else if cfg.rps * gap >= SECOND {
      reqs := TokenInTheGapShows(cfg, gap);
    } else {
      reqs := DrawnAtTheEndShows(cfg, gap);
    }
  }

  /** With requests one after another, cleanup changes no decision on any run with gaps up to `gap`
      exactly when buckets refill in time for that. */
  lemma SequentialInvisibleIff(cfg: Config, gap: nat)
    requires cfg.burst > 0
    ensures RefillsAlone(cfg, gap) <==>
      forall reqs, n :: Sequential(reqs, gap) && 0 <= n < |reqs| ==>
        Decision(cfg, true, reqs, n) == Decision(cfg, false, reqs, n)
  {
    if RefillsAlone(cfg, gap) {
      forall reqs, n | Sequential(reqs, gap) && 0 <= n < |reqs|
        ensures Decision(cfg, true, reqs, n) == Decision(cfg, false, reqs, n)
      {
        SequentialDecisionsAgree(cfg, reqs, n, gap);
      }
    } else {
      var reqs := SequentialCleanupShows(cfg, gap);
    }
  }
}
