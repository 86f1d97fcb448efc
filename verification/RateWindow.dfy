/**
 When a window of requests keeps within burst and rate, with buckets as objects and requests that
 may overlap: the exact condition on the number of threads, the rate, the burst and the gap
 between the marking of a bucket and the draw.
 */
module RateWindow {
  import opened Options
  import opened RatePool
  import opened RateRace
  import opened RateSequential

  /** Allowed requests for a key between two moments of a run against burst and rate. */
  ghost predicate WithinRate(cfg: Config, tr: seq<State>, i: int, j: int, key: string) {
    0 <= i <= j < |tr| ==>
      (RateRace.Allowed(tr[j], key) - RateRace.Allowed(tr[i], key)) * SECOND
        <= cfg.burst * SECOND + cfg.rps * (tr[j].now - tr[i].now)
  }

  // ----- a single thread

  /** The thread holds its bucket in the pool, and drew on it last before it marked it. */
  ghost predicate LoneThread(s: State, t: Thread) {
    && (Holds(t) ==> InPool(s, t.key, t.id) && t.id < |s.heap|)
    && (t.Marked? ==>
          var b := s.heap[t.id].bucket;
          b.last <= t.used <= s.now && b.lastUsed == t.used / SECOND)
  }

  ghost predicate Lone(cfg: Config, s: State) {
    && |s.threads| <= 1 && s.strayed == multiset{}
    && (|s.threads| == 1 ==> LoneThread(s, s.threads[0]))
    && (forall d :: 0 <= d < |s.heap| ==> FullInTime(cfg, s.heap[d].bucket))
  }

  lemma LoneCreate(cfg: Config, s: State, key: string, gap: nat)
    requires Lone(cfg, s) && Inv(s, gap) && |s.threads| == 1
    ensures Lone(cfg, Create(cfg, s, 0, key))
  {
    NewIsFullInTime(cfg, s.now);
  }

  lemma LoneMark(cfg: Config, s: State, key: string, id: nat, gap: nat)
    requires Lone(cfg, s) && Inv(s, gap) && |s.threads| == 1 && s.threads[0] == Got(key, id)
    ensures id < |s.heap| && Lone(cfg, Mark(s, 0, key, id))
  {
    assert BucketOk(s.heap[id].bucket, s.now, gap);
    MarkedIsFullInTime(cfg, s.heap[id].bucket, s.now / SECOND);
  }

  lemma LoneTake(cfg: Config, s: State, key: string, id: nat, used: nat, gap: nat)
    requires Lone(cfg, s) && Inv(s, gap) && |s.threads| == 1 && s.threads[0] == Marked(key, id, used)
    requires s.now <= used + gap && RefillsAlone(cfg, gap)
    ensures id < |s.heap| && Lone(cfg, Take(cfg, s, 0, key, id))
  {
    if LevelAt(cfg, s.heap[id].bucket, s.now) >= SECOND {
      DrawnIsFullInTime(cfg, s.heap[id].bucket, used, s.now, gap);
    }
  }

  lemma LoneStep(cfg: Config, s: State, a: Action, gap: nat)
    requires Lone(cfg, s) && Inv(s, gap) && WellFormed(s) && Enabled(s, a, gap)
    requires |s.threads| == 1 ==> RefillsAlone(cfg, gap)
    ensures Lone(cfg, Do(cfg, s, a, gap)) && |Do(cfg, s, a, gap).threads| == |s.threads|
  {
    match a
    case Tick(to) =>
    case Call(i, key) =>
    case Go(i) =>
      match s.threads[i]
      case Missing(key) => LoneCreate(cfg, s, key, gap);
      case Got(key, id) => LoneMark(cfg, s, key, id, gap);
      case Marked(key, id, used) => LoneTake(cfg, s, key, id, used, gap);
      case _ =>
  }

  lemma NextKeepsLone(cfg: Config, s: State, s': State, gap: nat)
    requires Lone(cfg, s) && Inv(s, gap) && Next(cfg, s, s', gap)
    requires |s.threads| == 1 ==> RefillsAlone(cfg, gap)
    ensures Lone(cfg, s') && |s'.threads| == |s.threads|
  {
    var a :| Enabled(s, a, gap) && s' == Do(cfg, s, a, gap);
    LoneStep(cfg, s, a, gap);
  }

  lemma {:induction false} LoneAlways(cfg: Config, tr: seq<State>, threads: nat, n: nat, gap: nat)
    requires IsRun(cfg, tr, threads, gap) && n < |tr| && threads <= 1 && (threads == 1 ==> RefillsAlone(cfg, gap))
    ensures Lone(cfg, tr[n]) && |tr[n].threads| == threads
  {
    if n > 0 {
      LoneAlways(cfg, tr, threads, n - 1, gap);
      InvAlways(cfg, tr, threads, n - 1, gap);
      assert StepAt(cfg, tr, n - 1, gap);
      NextKeepsLone(cfg, tr[n - 1], tr[n], gap);
    }
  }

  lemma LoneIsFull(cfg: Config, s: State, gap: nat)
    requires Lone(cfg, s) && Inv(s, gap) && WellFormed(s)
    ensures StaleAreFull(cfg, s)
  {
    forall k | k in s.buckets && Stale(s.heap[s.buckets[k]].bucket, s.now)
      ensures LevelAt(cfg, s.heap[s.buckets[k]].bucket, s.now) == Capacity(cfg)
    {
      assert BucketOk(s.heap[s.buckets[k]].bucket, s.now, gap);
      StaleIsFullInTime(cfg, s.heap[s.buckets[k]].bucket, s.now);
    }
  }

  /** A single thread whose buckets refill in time keeps every window within burst and rate. */
  lemma AloneWithinRate(cfg: Config, tr: seq<State>, threads: nat, i: nat, j: nat, key: string, gap: nat)
    requires IsRun(cfg, tr, threads, gap) && i <= j < |tr|
    requires threads <= 1 && (threads == 1 ==> RefillsAlone(cfg, gap))
    ensures WithinRate(cfg, tr, i, j, key)
  {
    forall n | 0 <= n < |tr| ensures WellFormed(tr[n]) && StaleAreFull(cfg, tr[n]) {
      LoneAlways(cfg, tr, threads, n, gap);
      InvAlways(cfg, tr, threads, n, gap);
      LoneIsFull(cfg, tr[n], gap);
    }
    LoneAlways(cfg, tr, threads, i, gap);
    LoneAlways(cfg, tr, threads, j, gap);
    ExcessWhenFull(cfg, tr, threads, i, j, key, gap);
  }

  // ----- runs of a single thread with requests for one key

  /** The thread is idle at time `t`, the pool has no key but "a", and every cleanup was before. */
  ghost predicate Ready(s: State, t: nat) {
    && s.threads == [Idle] && s.now == t && WellFormed(s) && s.buckets.Keys <= {"a"}
    && (s.lastClean.Some? ==> s.lastClean.value <= t)
  }

  /** The bucket of "a" was drawn on just now and has this level left. */
  ghost predicate Left(s: State, level: nat) {
    "a" in s.buckets && s.buckets["a"] < |s.heap|
    && s.heap[s.buckets["a"]].bucket == Bucket(level, s.now, s.now / SECOND)
  }

  /** The bucket of "a" in hand, made if there was none. */
  lemma GetBucket(cfg: Config, tr: seq<State>, gap: nat, t: nat) returns (tr': seq<State>, id: nat)
    requires IsRun(cfg, tr, 1, gap) && Ready(tr[|tr| - 1], t)
    ensures IsRun(cfg, tr', 1, gap) && tr <= tr'
    ensures var s, s' := tr[|tr| - 1], tr'[|tr'| - 1];
      && WellFormed(s') && s' == s.(threads := [Got("a", id)], buckets := map["a" := id], heap := s'.heap)
      && id < |s'.heap|
      && s'.heap[id].bucket == if "a" in s.buckets then s.heap[s.buckets["a"]].bucket else NewBucket(cfg, t)
  {
    var s := tr[|tr| - 1];
    tr' := Extend(cfg, tr, 1, gap, Call(0, "a"));
    if "a" in s.buckets {
      id := s.buckets["a"];
      assert s.buckets == map["a" := id];
    } else {
      id := |s.heap|;
      assert s.buckets == map[];
      tr' := Extend(cfg, tr', 1, gap, Go(0));
    }
  }

  /** The token is drawn `wait` after the marking, and the thread is about to leave. */
  lemma MarkAndTake(cfg: Config, tr: seq<State>, gap: nat, id: nat, wait: nat) returns (tr': seq<State>, i: nat)
    requires IsRun(cfg, tr, 1, gap) && WellFormed(tr[|tr| - 1]) && wait <= gap
    requires tr[|tr| - 1].threads == [Got("a", id)] && InPool(tr[|tr| - 1], "a", id)
    requires LevelAt(cfg, tr[|tr| - 1].heap[id].bucket, tr[|tr| - 1].now + wait) >= SECOND
    ensures IsRun(cfg, tr', 1, gap) && tr <= tr' && |tr| <= i < |tr'|
    ensures var s, s' := tr[|tr| - 1], tr'[|tr'| - 1];
      var t := s.now + wait;
      && tr'[i].now == t && RateRace.Allowed(tr'[i], "a") == RateRace.Allowed(s, "a")
      && WellFormed(s') && s'.now == t && s'.threads == [Leaving]
      && s'.buckets == s.buckets && s'.lastClean == s.lastClean
      && id < |s'.heap|
      && s'.heap[id].bucket == Bucket(LevelAt(cfg, s.heap[id].bucket, t) - SECOND, t, s.now / SECOND)
      && RateRace.Allowed(s', "a") == RateRace.Allowed(s, "a") + 1
  {
    var s := tr[|tr| - 1];
    tr' := Extend(cfg, tr, 1, gap, Go(0));
    tr' := Extend(cfg, tr', 1, gap, Tick(s.now + wait));
    i := |tr'| - 1;
    tr' := Extend(cfg, tr', 1, gap, Go(0));
  }

  /** A whole request at one moment. */
  lemma OneRequest(cfg: Config, tr: seq<State>, gap: nat, t: nat) returns (tr': seq<State>)
    requires IsRun(cfg, tr, 1, gap) && Ready(tr[|tr| - 1], t) && PoolLevel(cfg, tr[|tr| - 1], "a") >= SECOND
    ensures IsRun(cfg, tr', 1, gap) && tr <= tr'
    ensures var s, s' := tr[|tr| - 1], tr'[|tr'| - 1];
      && Ready(s', t) && Left(s', PoolLevel(cfg, s, "a") - SECOND)
      && RateRace.Allowed(s', "a") == RateRace.Allowed(s, "a") + 1
  {
    var id, i;
    tr', id := GetBucket(cfg, tr, gap, t);
    tr', i := MarkAndTake(cfg, tr', gap, id, 0);
    var s := tr'[|tr'| - 1];
    assert !Stale(s.heap[id].bucket, t);
    tr' := Extend(cfg, tr', 1, gap, Go(0));
    assert tr'[|tr'| - 1].buckets == map["a" := id];
  }

  /** Several of them. */
  lemma {:induction false} Requests(cfg: Config, tr: seq<State>, gap: nat, t: nat, n: nat) returns (tr': seq<State>)
    requires IsRun(cfg, tr, 1, gap) && Ready(tr[|tr| - 1], t) && PoolLevel(cfg, tr[|tr| - 1], "a") >= n * SECOND
    ensures IsRun(cfg, tr', 1, gap) && tr <= tr'
    ensures var s, s' := tr[|tr| - 1], tr'[|tr'| - 1];
      && Ready(s', t) && RateRace.Allowed(s', "a") == RateRace.Allowed(s, "a") + n
      && (if n == 0 then tr' == tr else Left(s', PoolLevel(cfg, s, "a") - n * SECOND))
      && PoolLevel(cfg, s', "a") == PoolLevel(cfg, s, "a") - n * SECOND
    decreases n
  {
    tr' := tr;
    if n > 0 {
      assert n * SECOND == (n - 1) * SECOND + SECOND;
      tr' := Requests(cfg, tr, gap, t, n - 1);
      tr' := OneRequest(cfg, tr', gap, t);
    }
  }

  /** A last request marks its bucket in the last nanosecond of the first second, draws on it
      `wait` later and cleans up ten minutes and a nanosecond after the marking. That removes the
      bucket, and a full burst gets through at once. */
  lemma Finale(cfg: Config, tr: seq<State>, gap: nat, wait: nat) returns (tr': seq<State>, i: nat)
    requires IsRun(cfg, tr, 1, gap) && Ready(tr[|tr| - 1], EARLY) && wait <= gap && wait <= KEPT + 1 && cfg.burst > 0
    requires PoolLevel(cfg, tr[|tr| - 1].(now := EARLY + wait), "a") >= SECOND
    ensures IsRun(cfg, tr', 1, gap) && tr <= tr' && |tr| <= i < |tr'|
    ensures var s, s' := tr[|tr| - 1], tr'[|tr'| - 1];
      && tr'[i].now == EARLY + wait && RateRace.Allowed(tr'[i], "a") == RateRace.Allowed(s, "a")
      && s'.now == LATE && RateRace.Allowed(s', "a") == RateRace.Allowed(s, "a") + 1 + cfg.burst
  {
    var id;
    tr', id := GetBucket(cfg, tr, gap, EARLY);
    FullStaysFull(cfg, EARLY, EARLY + wait);
    tr', i := MarkAndTake(cfg, tr', gap, id, wait);
    tr' := Extend(cfg, tr', 1, gap, Tick(LATE));
    assert Stale(tr'[|tr'| - 1].heap[id].bucket, LATE);
    tr' := Extend(cfg, tr', 1, gap, Go(0));
    assert tr'[|tr'| - 1].buckets == map[];
    tr' := Requests(cfg, tr', gap, LATE, cfg.burst);
  }

  lemma FullStaysFull(cfg: Config, t: nat, t': nat)
    requires t <= t'
    ensures LevelAt(cfg, NewBucket(cfg, t), t') == Capacity(cfg)
  {
    Scaled(0, t' - t, cfg.rps);
  }

  /** The run starts with the clock at `t`. */
  lemma StartAt(cfg: Config, gap: nat, t: nat) returns (tr: seq<State>)
    ensures IsRun(cfg, tr, 1, gap) && Ready(tr[|tr| - 1], t) && tr[|tr| - 1].buckets == map[]
    ensures RateRace.Allowed(tr[|tr| - 1], "a") == 0
  {
    tr := Extend(cfg, [Start(1)], 1, gap, Tick(t));
  }

  // ----- a single thread goes over the rate unless its buckets refill in time

  /** A burst takes too long to refill: two bursts. */
  lemma SlowRefill(cfg: Config, gap: nat) returns (tr: seq<State>, i: nat)
    requires cfg.burst > 0 && Capacity(cfg) > cfg.rps * (KEPT + 1)
    ensures IsRun(cfg, tr, 1, gap) && i < |tr| && !WithinRate(cfg, tr, i, |tr| - 1, "a")
  {
    tr := StartAt(cfg, gap, EARLY);
    i := |tr| - 1;
    var k;
    assert Capacity(cfg) == (cfg.burst - 1) * SECOND + SECOND;
    tr := Requests(cfg, tr, gap, EARLY, cfg.burst - 1);
    tr, k := Finale(cfg, tr, gap, 0);
  }

  /** The gap is long enough for a token to come back to an empty bucket: two bursts and a token. */
  lemma TokenInTheGap(cfg: Config, gap: nat) returns (tr: seq<State>, i: nat)
    requires cfg.burst > 0 && cfg.rps * gap >= SECOND && Capacity(cfg) + SECOND > cfg.rps * (KEPT + 1)
    ensures IsRun(cfg, tr, 1, gap) && i < |tr| && !WithinRate(cfg, tr, i, |tr| - 1, "a")
  {
    var wait := TimeForToken(cfg.rps, gap);
    Scaled(1, cfg.burst, SECOND);
    tr := StartAt(cfg, gap, EARLY);
    i := |tr| - 1;
    tr := Requests(cfg, tr, gap, EARLY, cfg.burst);
    var k;
    tr, k := Finale(cfg, tr, gap, wait);
  }

  /** The gap is shorter: tokens drawn as they come back, until the last empties the bucket at the
      end of the gap. */
  lemma DrawnAtTheEnd(cfg: Config, gap: nat) returns (tr: seq<State>, i: nat)
    requires cfg.burst > 0 && 0 < cfg.rps * gap < SECOND && Capacity(cfg) <= cfg.rps * (KEPT + 1)
    requires Capacity(cfg) + cfg.rps * gap > cfg.rps * (KEPT + 1)
    ensures IsRun(cfg, tr, 1, gap) && i < |tr| && !WithinRate(cfg, tr, i, |tr| - 1, "a")
  {
    ShortGap(cfg, gap);
    tr := StartAt(cfg, gap, gap - 1);
    i := |tr| - 1;
    tr := Requests(cfg, tr, gap, gap - 1, cfg.burst);
    tr := Extend(cfg, tr, 1, gap, Tick(EARLY));
    assert PoolLevel(cfg, tr[|tr| - 1], "a") == cfg.rps * (SECOND - gap);
    tr := Requests(cfg, tr, gap, EARLY, cfg.rps - 1);
    assert PoolLevel(cfg, tr[|tr| - 1].(now := EARLY + gap), "a") == SECOND;
    var k;
    tr, k := Finale(cfg, tr, gap, gap);
    assert LATE - (gap - 1) == KEPT + 1 + (SECOND - gap);
    Distributes(cfg.rps, KEPT + 1, SECOND - gap);
  }

  /** A single token drawn at the end of the gap is not back in time: a burst and that token. */
  lemma LateToken(cfg: Config, gap: nat) returns (tr: seq<State>, i: nat)
    requires cfg.burst > 0 && SECOND > cfg.rps * (KEPT + 1 - gap)
    ensures IsRun(cfg, tr, 1, gap) && i < |tr| && !WithinRate(cfg, tr, i, |tr| - 1, "a")
  {
    Scaled(1, cfg.burst, SECOND);
    tr := StartAt(cfg, gap, EARLY);
    tr, i := Finale(cfg, tr, gap, Min(gap, KEPT + 1));
  }

  lemma AloneOverRate(cfg: Config, gap: nat) returns (tr: seq<State>, i: nat)
    requires cfg.burst > 0 && !RefillsAlone(cfg, gap)
    ensures IsRun(cfg, tr, 1, gap) && i < |tr| && !WithinRate(cfg, tr, i, |tr| - 1, "a")
  {
    if SECOND > cfg.rps * (KEPT + 1 - gap) {
      tr, i := LateToken(cfg, gap);
    } else if Capacity(cfg) > cfg.rps * (KEPT + 1) {
      tr, i := SlowRefill(cfg, gap);
    } else if cfg.rps * gap >= SECOND {
      tr, i := TokenInTheGap(cfg, gap);
    } else {
      tr, i := DrawnAtTheEnd(cfg, gap);
    }
  }

  // ----- exactly when

  ghost predicate AlwaysWithinRate(cfg: Config, threads: nat, gap: nat) {
    forall tr, i, j, key :: IsRun(cfg, tr, threads, gap) ==> WithinRate(cfg, tr, i, j, key)
  }

  /** Two threads go over the rate, whatever the rate and the gap. */
  lemma TwoGoOver(cfg: Config, threads: nat, gap: nat)
    requires cfg.burst > 0 && threads >= 2
    ensures !AlwaysWithinRate(cfg, threads, gap)
  {
    var tr, i := StraysGetThrough(cfg, threads, 1, gap);
    assert !WithinRate(cfg, tr, i, |tr| - 1, "a");
  }

  /** In every run every window of every key keeps within burst and rate exactly when there is no
      thread, or a single one whose buckets refill in time. */
  lemma WithinRateIff(cfg: Config, threads: nat, gap: nat)
    requires cfg.burst > 0
    ensures AlwaysWithinRate(cfg, threads, gap) <==> threads == 0 || (threads == 1 && RefillsAlone(cfg, gap))
  {
    if threads == 0 || (threads == 1 && RefillsAlone(cfg, gap)) {
      forall tr, i, j, key | IsRun(cfg, tr, threads, gap) ensures WithinRate(cfg, tr, i, j, key) {
        if 0 <= i <= j < |tr| {
          AloneWithinRate(cfg, tr, threads, i, j, key, gap);
        }
      }
    } else if threads == 1 {
      var tr, i := AloneOverRate(cfg, gap);
    } else {
      TwoGoOver(cfg, threads, gap);
    }
  }

  /** So where buckets refill in time for overlapping requests, exactly when none overlap. */
  lemma WithinRateIffAlone(cfg: Config, threads: nat, gap: nat)
    requires cfg.burst > 0 && RefillsWhileKept(cfg, gap)
    ensures AlwaysWithinRate(cfg, threads, gap) <==> threads <= 1
  {
    RefillsAloneToo(cfg, gap);
    WithinRateIff(cfg, threads, gap);
  }
}
