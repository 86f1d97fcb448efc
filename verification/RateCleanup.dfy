/**
 When removing stale buckets shows: the exact condition on rate, burst and the gap between the
 clock readings of a request under which a pool that cleans up decides as one that never does, on
 runs in which every request draws on the bucket in the pool.
 */
module RateCleanup {
  import opened Options
  import opened RatePool

  // ----- requests for one key at one moment

  /** `n` requests that all read `u` for the time of last use and take their token at `t`. */
  function Burst(key: string, u: nat, t: nat, n: nat): seq<Request> {
    seq(n, _ => Request(key, u, t, t))
  }

  /** A bucket last used at `u` is not stale at `t`. */
  predicate Lives(u: nat, t: nat) {
    !Stale(Bucket(0, 0, u / SECOND), t)
  }

  /** A request that survives its own cleanup costs a token if there is one. */
  lemma OneDraw(cfg: Config, cleaning: bool, p: PoolState, key: string, u: nat, t: nat)
    requires Lives(u, t)
    ensures var p' := After(cfg, cleaning, p, Request(key, u, t, t));
            key in p'.buckets && p'.buckets[key] == Used(cfg, p.buckets, key, u, t)
            && Level(cfg, p'.buckets, key, t)
              == Level(cfg, p.buckets, key, t) - if Admits(cfg, p.buckets, key, t) then SECOND else 0
  {
    assert !Stale(Used(cfg, p.buckets, key, u, t), t);
  }

  /** After `n` draws at one moment from a level of `start`: `n` tokens are gone if they were
      there, else less than one is left. */
  ghost predicate Drawn(cfg: Config, p: Buckets, key: string, u: nat, t: nat, start: nat, n: nat) {
    if n * SECOND <= start then
      Level(cfg, p, key, t) == start - n * SECOND
      && (n > 0 ==> key in p && p[key] == Bucket(start - n * SECOND, t, u / SECOND))
    else Level(cfg, p, key, t) < SECOND
  }

  lemma DrawnNext(cfg: Config, cleaning: bool, p: PoolState, key: string, u: nat, t: nat, start: nat, n: nat)
    requires Lives(u, t) && Drawn(cfg, p.buckets, key, u, t, start, n)
    ensures Drawn(cfg, After(cfg, cleaning, p, Request(key, u, t, t)).buckets, key, u, t, start, n + 1)
  {
    OneDraw(cfg, cleaning, p, key, u, t);
    assert (n + 1) * SECOND == n * SECOND + SECOND;
  }

  lemma {:induction false} Draws(cfg: Config, cleaning: bool, before: seq<Request>, key: string, u: nat, t: nat, n: nat)
    requires Lives(u, t)
    ensures Drawn(cfg, Run(cfg, cleaning, before + Burst(key, u, t, n)).buckets, key, u, t,
                  Level(cfg, Run(cfg, cleaning, before).buckets, key, t), n)
  {
    if n == 0 {
      assert before + Burst(key, u, t, 0) == before;
    } else {
      var start := Level(cfg, Run(cfg, cleaning, before).buckets, key, t);
      var front, r := before + Burst(key, u, t, n - 1), Request(key, u, t, t);
      Draws(cfg, cleaning, before, key, u, t, n - 1);
      DrawnNext(cfg, cleaning, Run(cfg, cleaning, front), key, u, t, start, n - 1);
      assert before + Burst(key, u, t, n) == front + [r];
      RunOneMore(cfg, cleaning, front, r);
    }
  }

  lemma {:induction false} NoCleanupDuring(cfg: Config, before: seq<Request>, key: string, u: nat, t: nat, n: nat)
    requires !CleanupDue(Run(cfg, true, before).lastClean, t)
    ensures Run(cfg, true, before + Burst(key, u, t, n)).lastClean == Run(cfg, true, before).lastClean
  {
    if n == 0 {
      assert before + Burst(key, u, t, 0) == before;
    } else {
      NoCleanupDuring(cfg, before, key, u, t, n - 1);
      var front, r := before + Burst(key, u, t, n - 1), Request(key, u, t, t);
      assert before + Burst(key, u, t, n) == front + [r];
      RunOneMore(cfg, true, front, r);
    }
  }

  // ----- a run after which only the pool that cleans has forgotten an emptied bucket

  /** The latest cleanup before the bucket is emptied that leaves one due at `LATE`. */
  function PriorCleanup(gap: nat): nat {
    Min(EARLY + gap, LATE - CLEAN_EVERY - 1)
  }

  function Emptied(cfg: Config, gap: nat): seq<Request> {
    var c := PriorCleanup(gap);
    [Request("b", c, c, c)] + Burst("a", EARLY, EARLY + gap, cfg.burst)
  }

  /** For gaps up to ten minutes: requests that read the last nanosecond of a second for the time
      of last use empty a bucket `gap` later, and ten minutes and a nanosecond after that reading
      another key triggers the cleanup. For longer gaps a request is swept by its own cleanup. */
  function Forgetting(cfg: Config, gap: nat): seq<Request> {
    if gap <= KEPT then Emptied(cfg, gap) + [Request("b", LATE, LATE, LATE)]
    else [Request("a", EARLY, LATE, LATE)]
  }

  lemma EmptiedBucket(cfg: Config, gap: nat, cleaning: bool)
    requires cfg.burst > 0 && gap <= KEPT
    ensures var p := Run(cfg, cleaning, Emptied(cfg, gap)).buckets;
            "a" in p && p["a"] == Bucket(0, EARLY + gap, 0)
    ensures cleaning ==> Run(cfg, cleaning, Emptied(cfg, gap)).lastClean == Some(PriorCleanup(gap))
  {
    var c := PriorCleanup(gap);
    var first := [Request("b", c, c, c)];
    assert first[..0] == [] && Run(cfg, cleaning, first) == After(cfg, cleaning, EMPTY, first[0]);
    assert "a" !in Run(cfg, cleaning, first).buckets;
    Draws(cfg, cleaning, first, "a", EARLY, EARLY + gap, cfg.burst);
    if cleaning {
      NoCleanupDuring(cfg, first, "a", EARLY, EARLY + gap, cfg.burst);
    }
  }

  lemma SweptAndKept(cfg: Config, gap: nat)
    requires cfg.burst > 0 && gap <= KEPT
    ensures "a" !in Run(cfg, true, Forgetting(cfg, gap)).buckets
    ensures var q := Run(cfg, false, Forgetting(cfg, gap)).buckets; "a" in q && q["a"] == Bucket(0, EARLY + gap, 0)
  {
    var r := Request("b", LATE, LATE, LATE);
    EmptiedBucket(cfg, gap, true);
    EmptiedBucket(cfg, gap, false);
    assert Stale(Bucket(0, EARLY + gap, 0), LATE);
    RunOneMore(cfg, true, Emptied(cfg, gap), r);
    RunOneMore(cfg, false, Emptied(cfg, gap), r);
  }

  lemma SweptByItself(cfg: Config)
    requires cfg.burst > 0
    ensures "a" !in Run(cfg, true, [Request("a", EARLY, LATE, LATE)]).buckets
    ensures var q := Run(cfg, false, [Request("a", EARLY, LATE, LATE)]).buckets;
            "a" in q && q["a"] == Bucket(Capacity(cfg) - SECOND, LATE, 0)
  {
    var r := Request("a", EARLY, LATE, LATE);
    Scaled(1, cfg.burst, SECOND);
    assert [r][..0] == [];
    assert Used(cfg, map[], "a", EARLY, LATE) == Bucket(Capacity(cfg) - SECOND, LATE, 0);
    assert Stale(Used(cfg, map[], "a", EARLY, LATE), LATE);
  }

  lemma LevelsAfterForgetting(cfg: Config, gap: nat)
    requires cfg.burst > 0 && !RefillsWhileKept(cfg, gap)
    ensures Level(cfg, Run(cfg, true, Forgetting(cfg, gap)).buckets, "a", LATE) == Capacity(cfg)
    ensures Level(cfg, Run(cfg, false, Forgetting(cfg, gap)).buckets, "a", LATE) < Capacity(cfg)
  {
    if gap <= KEPT {
      SweptAndKept(cfg, gap);
      assert LATE - (EARLY + gap) == KEPT + 1 - gap;
    } else {
      SweptByItself(cfg);
    }
  }

  // ----- cleanup is visible unless idle buckets refill in time

  function Revealing(cfg: Config, gap: nat): seq<Request> {
    Forgetting(cfg, gap) + Burst("a", LATE, LATE, cfg.burst)
  }

  lemma RevealingIsOrdered(cfg: Config, gap: nat)
    ensures Ordered(Revealing(cfg, gap), gap)
  {
    var reqs := Revealing(cfg, gap);
    assert gap <= KEPT ==> EARLY + gap <= LATE;
    assert forall i :: 0 <= i < |Burst("a", LATE, LATE, cfg.burst)| ==> Burst("a", LATE, LATE, cfg.burst)[i].at == LATE;
  }

  /** The last request of a burst is allowed exactly if the bucket was full. */
  lemma LastOfBurst(cfg: Config, cleaning: bool, before: seq<Request>, t: nat, reqs: seq<Request>)
    requires cfg.burst > 0 && reqs == before + Burst("a", t, t, cfg.burst)
    ensures Decision(cfg, cleaning, reqs, |reqs| - 1) <==>
      Level(cfg, Run(cfg, cleaning, before).buckets, "a", t) >= Capacity(cfg)
  {
    var n := cfg.burst - 1;
    Draws(cfg, cleaning, before, "a", t, t, n);
    assert reqs[..|reqs| - 1] == before + Burst("a", t, t, n);
    assert reqs[|reqs| - 1] == Request("a", t, t, t);
    assert Capacity(cfg) == n * SECOND + SECOND;
  }

  /** If the cleaning pool treats "a" as full and the other does not, a burst tells them apart. */
  lemma BurstShows(cfg: Config, before: seq<Request>, t: nat, reqs: seq<Request>)
    requires cfg.burst > 0 && reqs == before + Burst("a", t, t, cfg.burst)
    requires Level(cfg, Run(cfg, true, before).buckets, "a", t) == Capacity(cfg)
    requires Level(cfg, Run(cfg, false, before).buckets, "a", t) < Capacity(cfg)
    ensures Decision(cfg, true, reqs, |reqs| - 1) && !Decision(cfg, false, reqs, |reqs| - 1)
  {
    LastOfBurst(cfg, true, before, t, reqs);
    LastOfBurst(cfg, false, before, t, reqs);
  }

  /** The last request of the run is allowed with cleanup and denied without. */
  lemma CleanupShows(cfg: Config, gap: nat)
    requires cfg.burst > 0 && !RefillsWhileKept(cfg, gap)
    ensures Ordered(Revealing(cfg, gap), gap) && Revealing(cfg, gap) != []
    ensures Decision(cfg, true, Revealing(cfg, gap), |Revealing(cfg, gap)| - 1)
    ensures !Decision(cfg, false, Revealing(cfg, gap), |Revealing(cfg, gap)| - 1)
  {
    RevealingIsOrdered(cfg, gap);
    LevelsAfterForgetting(cfg, gap);
    BurstShows(cfg, Forgetting(cfg, gap), LATE, Revealing(cfg, gap));
  }

  /** Cleanup changes no decision on any run with gaps up to `gap` exactly when an idle bucket
      refills in time. */
  lemma CleanupInvisibleIff(cfg: Config, gap: nat)
    requires cfg.burst > 0
    ensures RefillsWhileKept(cfg, gap) <==>
      forall reqs, n :: Ordered(reqs, gap) && 0 <= n < |reqs| ==>
        Decision(cfg, true, reqs, n) == Decision(cfg, false, reqs, n)
  {
    if RefillsWhileKept(cfg, gap) {
      forall reqs, n | Ordered(reqs, gap) && 0 <= n < |reqs|
        ensures Decision(cfg, true, reqs, n) == Decision(cfg, false, reqs, n)
      {
        DecisionsAgree(cfg, reqs, n, gap);
      }
    } else {
      CleanupShows(cfg, gap);
    }
  }

  /** In whole numbers: readings at most a nanosecond apart leave room for ten minutes of refill
      exactly, readings a little further apart for less than that, and readings more than ten
      minutes apart for nothing. */
  lemma RefillCondition(cfg: Config, gap: nat)
    requires cfg.burst > 0
    ensures RefillsWhileKept(cfg, gap) <==> cfg.burst * 1_000_000_000 <= cfg.rps * (600_000_000_001 - gap)
    ensures gap <= 1 && cfg.rps < SECOND ==> (RefillsWhileKept(cfg, gap) <==> cfg.burst <= 600 * cfg.rps)
    ensures gap > 1 && 0 < cfg.rps * (gap - 1) <= SECOND ==>
      (RefillsWhileKept(cfg, gap) <==> cfg.burst < 600 * cfg.rps)
    ensures gap > KEPT ==> !RefillsWhileKept(cfg, gap)
  {
    var most := KEEP_SECONDS * cfg.rps;
    assert cfg.rps * (KEPT + 1 - gap) == most * SECOND - cfg.rps * (gap - 1);
    if cfg.burst < most { Scaled(cfg.burst + 1, most, SECOND); }
    if cfg.burst > most { Scaled(most + 1, cfg.burst, SECOND); }
    if gap > KEPT { Scaled(KEPT + 1 - gap, 0, cfg.rps); }
  }

  // ----- the bound on a window holds exactly when cleanup is invisible

  lemma {:induction false} CountOfAll(v: seq<bool>, i: nat, j: nat)
    requires i <= j <= |v| && forall m :: i <= m < j ==> v[m]
    ensures CountIn(v, i, j) == j - i
    decreases j
  {
    if i < j {
      CountOfAll(v, i, j - 1);
    }
  }

  lemma {:induction false} CountSplits(v: seq<bool>, i: nat, m: nat, j: nat)
    requires i <= m <= j <= |v|
    ensures CountIn(v, i, j) == CountIn(v, i, m) + CountIn(v, m, j)
    decreases j
  {
    if m < j {
      CountSplits(v, i, m, j - 1);
    }
  }

  /** Requests for one key at one moment are all allowed while tokens last. */
  lemma DrawsAreAllowed(cfg: Config, before: seq<Request>, key: string, u: nat, t: nat, n: nat,
                        reqs: seq<Request>, m: nat)
    requires Lives(u, t) && n * SECOND <= Level(cfg, Run(cfg, true, before).buckets, key, t)
    requires before + Burst(key, u, t, n) <= reqs && |before| <= m < |before| + n
    ensures Allowed(cfg, true, reqs, key)[m]
  {
    DrawIsAllowed(cfg, before, key, u, t, m - |before|, n);
    AmongBurst(before, key, u, t, n, reqs, m);
  }

  lemma AmongBurst(before: seq<Request>, key: string, u: nat, t: nat, n: nat, reqs: seq<Request>, m: nat)
    requires before + Burst(key, u, t, n) <= reqs && |before| <= m < |before| + n
    ensures reqs[m] == Request(key, u, t, t) && reqs[..m] == before + Burst(key, u, t, m - |before|)
  {
  }

  lemma DrawIsAllowed(cfg: Config, before: seq<Request>, key: string, u: nat, t: nat, k: nat, n: nat)
    requires Lives(u, t) && k < n && n * SECOND <= Level(cfg, Run(cfg, true, before).buckets, key, t)
    ensures Admits(cfg, Run(cfg, true, before + Burst(key, u, t, k)).buckets, key, t)
  {
    Draws(cfg, true, before, key, u, t, k);
    Scaled(k + 1, n, SECOND);
    assert (k + 1) * SECOND == k * SECOND + SECOND;
  }

  /** After forgetting, a full burst gets through at `LATE`. */
  lemma LastBurst(cfg: Config, gap: nat, reqs: seq<Request>, m: nat)
    requires cfg.burst > 0 && !RefillsWhileKept(cfg, gap)
    requires Forgetting(cfg, gap) + Burst("a", LATE, LATE, cfg.burst) <= reqs
    requires |Forgetting(cfg, gap)| <= m < |Forgetting(cfg, gap)| + cfg.burst
    ensures Allowed(cfg, true, reqs, "a")[m]
  {
    LevelsAfterForgetting(cfg, gap);
    DrawsAreAllowed(cfg, Forgetting(cfg, gap), "a", LATE, LATE, cfg.burst, reqs, m);
  }

  /** Before the cleanup a full burst gets through as well. */
  lemma FirstBurst(cfg: Config, gap: nat, reqs: seq<Request>, m: nat)
    requires cfg.burst > 0 && gap <= KEPT && Emptied(cfg, gap) <= reqs && 1 <= m <= cfg.burst
    ensures Allowed(cfg, true, reqs, "a")[m]
  {
    var c := PriorCleanup(gap);
    var first := [Request("b", c, c, c)];
    assert first[..0] == [] && Run(cfg, true, first) == After(cfg, true, EMPTY, first[0]);
    assert "a" !in Run(cfg, true, first).buckets;
    DrawsAreAllowed(cfg, first, "a", EARLY, EARLY + gap, cfg.burst, reqs, m);
  }

  /** A single request on an empty pool is allowed. */
  lemma FirstRequest(cfg: Config, reqs: seq<Request>)
    requires cfg.burst > 0 && [Request("a", EARLY, LATE, LATE)] <= reqs
    ensures Allowed(cfg, true, reqs, "a")[0]
  {
    Scaled(1, cfg.burst, SECOND);
    assert reqs[..0] == [] && reqs[0] == Request("a", EARLY, LATE, LATE);
  }

  ghost predicate WithinRate(cfg: Config, reqs: seq<Request>, key: string, i: int, j: int) {
    0 <= i < j <= |reqs| ==>
      AllowedIn(cfg, true, reqs, key, i, j) * SECOND <= cfg.burst * SECOND + cfg.rps * (reqs[j - 1].at - reqs[i].at)
  }

  /** All but one of the entries from the second on are set. */
  lemma CountOfTwoRuns(v: seq<bool>, n: nat)
    requires |v| == 2 * n + 2 && forall m :: 1 <= m < |v| && m != n + 1 ==> v[m]
    ensures CountIn(v, 1, |v|) >= 2 * n
  {
    CountOfAll(v, 1, n + 1);
    CountOfAll(v, n + 2, |v|);
    CountSplits(v, 1, n + 1, |v|);
    CountSplits(v, n + 1, n + 2, |v|);
  }

  /** Two full bursts within ten minutes and a nanosecond, less the gap. */
  lemma TwoBursts(cfg: Config, gap: nat, reqs: seq<Request>)
    requires cfg.burst > 0 && !RefillsWhileKept(cfg, gap) && gap <= KEPT && |reqs| == 2 * cfg.burst + 2
    requires Emptied(cfg, gap) <= reqs && Forgetting(cfg, gap) + Burst("a", LATE, LATE, cfg.burst) <= reqs
    ensures CountIn(Allowed(cfg, true, reqs, "a"), 1, |reqs|) >= 2 * cfg.burst
  {
    var v, n := Allowed(cfg, true, reqs, "a"), cfg.burst;
    forall m | 1 <= m < |v| && m != n + 1 ensures v[m] {
      EitherBurst(cfg, gap, reqs, m);
    }
    CountOfTwoRuns(v, n);
  }

  lemma EitherBurst(cfg: Config, gap: nat, reqs: seq<Request>, m: nat)
    requires cfg.burst > 0 && !RefillsWhileKept(cfg, gap) && gap <= KEPT && |reqs| == 2 * cfg.burst + 2
    requires Emptied(cfg, gap) <= reqs && Forgetting(cfg, gap) + Burst("a", LATE, LATE, cfg.burst) <= reqs
    requires 1 <= m < |reqs| && m != cfg.burst + 1
    ensures Allowed(cfg, true, reqs, "a")[m]
  {
    if m <= cfg.burst {
      FirstBurst(cfg, gap, reqs, m);
    } else {
      LastBurst(cfg, gap, reqs, m);
    }
  }

  /** A burst and one more request at one moment. */
  lemma OneTooMany(cfg: Config, gap: nat, reqs: seq<Request>)
    requires cfg.burst > 0 && !RefillsWhileKept(cfg, gap) && gap > KEPT && |reqs| == cfg.burst + 1
    requires Forgetting(cfg, gap) + Burst("a", LATE, LATE, cfg.burst) <= reqs
    ensures CountIn(Allowed(cfg, true, reqs, "a"), 0, |reqs|) == cfg.burst + 1
  {
    var v := Allowed(cfg, true, reqs, "a");
    assert [Request("a", EARLY, LATE, LATE)] <= reqs;
    FirstRequest(cfg, reqs);
    forall m | 1 <= m < |v| ensures v[m] { LastBurst(cfg, gap, reqs, m); }
    CountOfAll(v, 0, |v|);
  }

  lemma RevealingShape(cfg: Config, gap: nat)
    requires cfg.burst > 0
    ensures var reqs := Revealing(cfg, gap);
      if gap <= KEPT then
        && |reqs| == 2 * cfg.burst + 2 && Emptied(cfg, gap) <= reqs
        && reqs[1].at == EARLY + gap && reqs[|reqs| - 1].at == LATE
      else |reqs| == cfg.burst + 1 && reqs[0].at == LATE && reqs[|reqs| - 1].at == LATE
  {
  }

  lemma TooMany(cfg: Config, gap: nat)
    requires cfg.burst > 0 && !RefillsWhileKept(cfg, gap)
    ensures Ordered(Revealing(cfg, gap), gap)
    ensures !WithinRate(cfg, Revealing(cfg, gap), "a", if gap <= KEPT then 1 else 0, |Revealing(cfg, gap)|)
  {
    var reqs := Revealing(cfg, gap);
    RevealingIsOrdered(cfg, gap);
    RevealingShape(cfg, gap);
    if gap <= KEPT {
      TwoBursts(cfg, gap, reqs);
      Scaled(2 * cfg.burst, AllowedIn(cfg, true, reqs, "a", 1, |reqs|), SECOND);
      assert LATE - (EARLY + gap) == KEPT + 1 - gap;
    } else {
      OneTooMany(cfg, gap, reqs);
    }
  }

  /** With cleanup, every window of every run of every key keeps within burst and rate exactly
      when idle buckets refill in time. */
  lemma WindowBoundIff(cfg: Config, gap: nat)
    requires cfg.burst > 0
    ensures RefillsWhileKept(cfg, gap) <==>
      forall reqs, key, i, j :: Ordered(reqs, gap) ==> WithinRate(cfg, reqs, key, i, j)
  {
    if RefillsWhileKept(cfg, gap) {
      forall reqs, key, i, j | Ordered(reqs, gap) ensures WithinRate(cfg, reqs, key, i, j) {
        if 0 <= i < j <= |reqs| {
          WindowBound(cfg, reqs, key, i, j, gap);
        }
      }
    } else {
      TooMany(cfg, gap);
    }
  }
}
