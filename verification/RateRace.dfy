/**
 Requests that overlap. A request holds on to the bucket it found while others run the cleanup, so
 it may take its token from a bucket that is no longer in the pool. Buckets are objects with
 identities here, and threads run the sections of a request in any interleaving; the time between
 the sections is arbitrary, except that a request takes its token at most `gap` after it has
 marked its bucket as used.
 */
module RateRace {
  import opened Options
  import opened RatePool

  /** A bucket object and the key it was made for. */
  datatype Entry = Entry(key: string, bucket: Bucket)

  /** Where a request stands: not found under the read lock, bucket in hand, bucket marked as used,
      token taken or refused. */
  datatype Thread =
    | Idle
    | Missing(key: string)
    | Got(key: string, id: nat)
    | Marked(key: string, id: nat, used: nat)
    | Leaving

  /** `heap` holds every bucket ever made and `buckets` those in the pool; `served` and `strayed`
      count the tokens taken for each key from buckets in the pool and from removed ones. */
  datatype State = State(
    now: nat,
    buckets: map<string, nat>,
    heap: seq<Entry>,
    lastClean: Option<nat>,
    threads: seq<Thread>,
    served: multiset<string>,
    strayed: multiset<string>)

  datatype Action = Tick(to: nat) | Call(i: nat, key: string) | Go(i: nat)

  predicate Holds(t: Thread) {
    t.Got? || t.Marked?
  }

  predicate WellFormed(s: State) {
    && (forall k :: k in s.buckets ==> s.buckets[k] < |s.heap|)
    && (forall i :: 0 <= i < |s.threads| && Holds(s.threads[i]) ==> s.threads[i].id < |s.heap|)
  }

  predicate Enabled(s: State, a: Action, gap: nat) {
    match a
    case Tick(to) => s.now <= to
    case Call(i, _) => i < |s.threads| && s.threads[i].Idle?
    case Go(i) =>
      && i < |s.threads| && !s.threads[i].Idle?
      && (s.threads[i].Marked? ==> s.now <= s.threads[i].used + gap)
  }

  predicate InPool(s: State, key: string, id: nat) {
    key in s.buckets && s.buckets[key] == id
  }

  function Goto(s: State, i: nat, t: Thread): State
    requires i < |s.threads|
  {
    s.(threads := s.threads[i := t])
  }

  /** Under the write lock: look again, and only then create. */
  function Create(cfg: Config, s: State, i: nat, key: string): State
    requires i < |s.threads|
  {
    if key in s.buckets then Goto(s, i, Got(key, s.buckets[key]))
    else Goto(s, i, Got(key, |s.heap|)).(
           buckets := s.buckets[key := |s.heap|], heap := s.heap + [Entry(key, NewBucket(cfg, s.now))])
  }

  function WithBucket(s: State, id: nat, b: Bucket): State
    requires id < |s.heap|
  {
    s.(heap := s.heap[id := s.heap[id].(bucket := b)])
  }

  function Mark(s: State, i: nat, key: string, id: nat): State
    requires i < |s.threads| && id < |s.heap|
  {
    WithBucket(Goto(s, i, Marked(key, id, s.now)), id, s.heap[id].bucket.(lastUsed := s.now / SECOND))
  }

  function Take(cfg: Config, s: State, i: nat, key: string, id: nat): State
    requires i < |s.threads| && id < |s.heap|
  {
    var b := s.heap[id].bucket;
    var level := LevelAt(cfg, b, s.now);
    var s1 := Goto(s, i, Leaving);
    if level < SECOND then s1
    else
      var s2 := WithBucket(s1, id, b.(level := level - SECOND, last := s.now));
      if InPool(s, key, id) then s2.(served := s.served + multiset{key})
      else s2.(strayed := s.strayed + multiset{key})
  }

  function Leave(s: State, i: nat): State
    requires WellFormed(s) && i < |s.threads|
  {
    var s1 := Goto(s, i, Idle);
    if CleanupDue(s.lastClean, s.now) then
      s1.(buckets := map k | k in s.buckets && !Stale(s.heap[s.buckets[k]].bucket, s.now) :: s.buckets[k],
          lastClean := Some(s.now))
    else s1
  }

  function Do(cfg: Config, s: State, a: Action, gap: nat): State
    requires WellFormed(s) && Enabled(s, a, gap)
  {
    match a
    case Tick(to) => s.(now := to)
    case Call(i, key) => Goto(s, i, if key in s.buckets then Got(key, s.buckets[key]) else Missing(key))
    case Go(i) =>
      match s.threads[i]
      case Idle => s
      case Missing(key) => Create(cfg, s, i, key)
      case Got(key, id) => Mark(s, i, key, id)
      case Marked(key, id, _) => Take(cfg, s, i, key, id)
      case Leaving => Leave(s, i)
  }

  /** The section that takes the token: a bucket that has filled up to one token loses one and is
      drawn on now; any other stays as it is. */
  lemma TakeDraws(cfg: Config, s: State, i: nat, key: string, id: nat)
    requires i < |s.threads| && id < |s.heap|
    ensures var b, b' := s.heap[id].bucket, Take(cfg, s, i, key, id).heap[id].bucket;
      if LevelAt(cfg, b, s.now) >= 1_000_000_000
      then b' == Bucket(LevelAt(cfg, b, s.now) - 1_000_000_000, s.now, b.lastUsed)
      else b' == b
    ensures var s' := Take(cfg, s, i, key, id);
      && |s'.served + s'.strayed| == |s.served + s.strayed|
           + (if LevelAt(cfg, s.heap[id].bucket, s.now) >= 1_000_000_000 then 1 else 0)
      && s'.buckets == s.buckets && s'.threads[i].Leaving?
  {
  }

  /** The section that leaves: more than five minutes after the last cleanup, exactly the buckets
      stay that were used in the second ten minutes ago or later. */
  lemma LeaveCleans(s: State, i: nat)
    requires WellFormed(s) && i < |s.threads|
    ensures var s' := Leave(s, i);
      if s.lastClean.Some? && s.now <= s.lastClean.value + 300_000_000_000
      then s'.buckets == s.buckets && s'.lastClean == s.lastClean
      else
        && s'.lastClean == Some(s.now)
        && (forall k :: k in s'.buckets <==>
              k in s.buckets
              && s.heap[s.buckets[k]].bucket.lastUsed >= (s.now as int - 600_000_000_000) / 1_000_000_000)
        && (forall k :: k in s'.buckets ==> s'.buckets[k] == s.buckets[k])
  {
  }

  // ----- what every step keeps

  /** A bucket is drawn on at most `gap` after the second after its time of last use began. */
  ghost predicate BucketOk(b: Bucket, now: nat, gap: nat) {
    b.last <= now && b.lastUsed <= now / SECOND && b.last < (b.lastUsed + 1) * SECOND + gap
  }

  ghost predicate ThreadOk(s: State, t: Thread) {
    && (Holds(t) ==> t.id < |s.heap| && s.heap[t.id].key == t.key)
    && (t.Marked? ==> t.used <= s.now && t.used / SECOND <= s.heap[t.id].bucket.lastUsed)
  }

  ghost predicate Inv(s: State, gap: nat) {
    && (forall k :: k in s.buckets ==> s.buckets[k] < |s.heap| && s.heap[s.buckets[k]].key == k)
    && (forall d :: 0 <= d < |s.heap| ==> BucketOk(s.heap[d].bucket, s.now, gap))
    && (forall i :: 0 <= i < |s.threads| ==> ThreadOk(s, s.threads[i]))
  }

  lemma SecondsGrow(t: nat, t': nat)
    requires t <= t'
    ensures t / SECOND <= t' / SECOND
  {
  }

  lemma NewBucketOk(cfg: Config, now: nat, gap: nat)
    ensures BucketOk(NewBucket(cfg, now), now, gap)
  {
    SecondOf(now, now, gap);
  }

  lemma MarkedBucketOk(b: Bucket, now: nat, gap: nat)
    requires BucketOk(b, now, gap)
    ensures BucketOk(b.(lastUsed := now / SECOND), now, gap)
  {
    Scaled(b.lastUsed + 1, now / SECOND + 1, SECOND);
  }

  lemma DrawnBucketOk(b: Bucket, level: nat, used: nat, now: nat, gap: nat)
    requires BucketOk(b, now, gap) && used / SECOND <= b.lastUsed && now <= used + gap
    ensures BucketOk(b.(level := level, last := now), now, gap)
  {
    SecondOf(used, now, gap);
    Scaled(used / SECOND + 1, b.lastUsed + 1, SECOND);
  }

  lemma TickKeepsInv(cfg: Config, s: State, to: nat, gap: nat)
    requires Inv(s, gap) && s.now <= to
    ensures Inv(s.(now := to), gap)
  {
    SecondsGrow(s.now, to);
  }

  lemma CreateKeepsInv(cfg: Config, s: State, i: nat, key: string, gap: nat)
    requires Inv(s, gap) && i < |s.threads|
    ensures Inv(Create(cfg, s, i, key), gap)
  {
    NewBucketOk(cfg, s.now, gap);
  }

  lemma MarkKeepsInv(s: State, i: nat, key: string, id: nat, gap: nat)
    requires Inv(s, gap) && i < |s.threads| && s.threads[i] == Got(key, id)
    ensures id < |s.heap| && Inv(Mark(s, i, key, id), gap)
  {
    assert ThreadOk(s, s.threads[i]);
    MarkedBucketOk(s.heap[id].bucket, s.now, gap);
  }

  lemma TakeKeepsInv(cfg: Config, s: State, i: nat, key: string, id: nat, used: nat, gap: nat)
    requires Inv(s, gap) && i < |s.threads| && s.threads[i] == Marked(key, id, used) && s.now <= used + gap
    ensures id < |s.heap| && Inv(Take(cfg, s, i, key, id), gap)
  {
    assert ThreadOk(s, s.threads[i]);
    var b := s.heap[id].bucket;
    if LevelAt(cfg, b, s.now) >= SECOND {
      DrawnBucketOk(b, LevelAt(cfg, b, s.now) - SECOND, used, s.now, gap);
    }
  }

  lemma LeaveKeepsInv(s: State, i: nat, gap: nat)
    requires Inv(s, gap) && WellFormed(s) && i < |s.threads|
    ensures Inv(Leave(s, i), gap)
  {
  }

  lemma InvIsWellFormed(s: State, gap: nat)
    requires Inv(s, gap)
    ensures WellFormed(s)
  {
    forall i | 0 <= i < |s.threads| && Holds(s.threads[i]) ensures s.threads[i].id < |s.heap| {
      assert ThreadOk(s, s.threads[i]);
    }
  }

  lemma StepKeepsInv(cfg: Config, s: State, a: Action, gap: nat)
    requires Inv(s, gap) && WellFormed(s) && Enabled(s, a, gap)
    ensures Inv(Do(cfg, s, a, gap), gap)
  {
    match a
    case Tick(to) => TickKeepsInv(cfg, s, to, gap);
    case Call(i, key) =>
    case Go(i) =>
      match s.threads[i]
      case Missing(key) => CreateKeepsInv(cfg, s, i, key, gap);
      case Got(key, id) => MarkKeepsInv(s, i, key, id, gap);
      case Marked(key, id, used) => TakeKeepsInv(cfg, s, i, key, id, used, gap);
      case Leaving => LeaveKeepsInv(s, i, gap);
      case _ =>
  }

  // ----- tokens taken from the pool

  /** The level a key is treated as having. */
  function PoolLevel(cfg: Config, s: State, key: string): nat
    requires WellFormed(s)
  {
    if key in s.buckets then LevelAt(cfg, s.heap[s.buckets[key]].bucket, s.now) else Capacity(cfg)
  }

  /** Tokens taken from buckets in the pool and tokens left. */
  function Budget(cfg: Config, s: State, key: string): int
    requires WellFormed(s)
  {
    s.served[key] * SECOND + PoolLevel(cfg, s, key)
  }

  lemma TickBudget(cfg: Config, s: State, to: nat, key: string, gap: nat)
    requires Inv(s, gap) && WellFormed(s) && s.now <= to
    ensures Budget(cfg, s.(now := to), key) <= Budget(cfg, s, key) + cfg.rps * (to - s.now)
  {
    if key in s.buckets {
      var b := s.heap[s.buckets[key]].bucket;
      assert BucketOk(b, s.now, gap);
      Distributes(cfg.rps, s.now - b.last, to - s.now);
      assert (s.now - b.last) + (to - s.now) == to - b.last;
    } else {
      Scaled(0, to - s.now, cfg.rps);
    }
  }

  lemma CreateBudget(cfg: Config, s: State, i: nat, made: string, key: string)
    requires WellFormed(s) && i < |s.threads|
    ensures WellFormed(Create(cfg, s, i, made)) && Budget(cfg, Create(cfg, s, i, made), key) == Budget(cfg, s, key)
  {
  }

  lemma MarkBudget(cfg: Config, s: State, i: nat, owner: string, id: nat, key: string)
    requires WellFormed(s) && i < |s.threads| && id < |s.heap|
    ensures WellFormed(Mark(s, i, owner, id)) && Budget(cfg, Mark(s, i, owner, id), key) == Budget(cfg, s, key)
  {
  }

  /** A token from the pool moves from what is left to what is taken; one from a removed bucket
      concerns neither. */
  lemma TakeBudget(cfg: Config, s: State, i: nat, owner: string, id: nat, key: string, gap: nat)
    requires Inv(s, gap) && WellFormed(s) && i < |s.threads| && id < |s.heap| && s.heap[id].key == owner
    ensures WellFormed(Take(cfg, s, i, owner, id))
    ensures Budget(cfg, Take(cfg, s, i, owner, id), key) == Budget(cfg, s, key)
  {
    var s' := Take(cfg, s, i, owner, id);
    if key in s.buckets && s.buckets[key] == id && LevelAt(cfg, s.heap[id].bucket, s.now) >= SECOND {
      assert key == owner && InPool(s, owner, id);
      assert s'.served[key] == s.served[key] + 1;
    }
  }

  /** Whatever bucket of the pool is found stale now is full. */
  ghost predicate StaleAreFull(cfg: Config, s: State)
    requires WellFormed(s)
  {
    forall k :: k in s.buckets && Stale(s.heap[s.buckets[k]].bucket, s.now) ==>
      LevelAt(cfg, s.heap[s.buckets[k]].bucket, s.now) == Capacity(cfg)
  }

  lemma RefillMakesFull(cfg: Config, s: State, gap: nat)
    requires Inv(s, gap) && WellFormed(s) && RefillsWhileKept(cfg, gap)
    ensures StaleAreFull(cfg, s)
  {
    forall k | k in s.buckets && Stale(s.heap[s.buckets[k]].bucket, s.now)
      ensures LevelAt(cfg, s.heap[s.buckets[k]].bucket, s.now) == Capacity(cfg)
    {
      assert BucketOk(s.heap[s.buckets[k]].bucket, s.now, gap);
      StaleIsFull(cfg, s.heap[s.buckets[k]].bucket, s.now, gap);
    }
  }

  /** A bucket that is removed is full, as is the one that will replace it. */
  lemma LeaveBudget(cfg: Config, s: State, i: nat, key: string)
    requires WellFormed(s) && i < |s.threads| && StaleAreFull(cfg, s)
    ensures WellFormed(Leave(s, i)) && Budget(cfg, Leave(s, i), key) == Budget(cfg, s, key)
  {
  }

  /** The sections of a request take no time and leave the budget as it is. */
  lemma GoBudget(cfg: Config, s: State, i: nat, key: string, gap: nat)
    requires Inv(s, gap) && WellFormed(s) && Enabled(s, Go(i), gap) && StaleAreFull(cfg, s)
    ensures var s' := Do(cfg, s, Go(i), gap);
      WellFormed(s') && s'.now == s.now && Budget(cfg, s', key) == Budget(cfg, s, key)
  {
    match s.threads[i]
    case Missing(k) => CreateBudget(cfg, s, i, k, key);
    case Got(k, id) => MarkBudget(cfg, s, i, k, id, key);
    case Marked(k, id, used) => assert ThreadOk(s, s.threads[i]); TakeBudget(cfg, s, i, k, id, key, gap);
    case Leaving => LeaveBudget(cfg, s, i, key);
    case _ =>
  }

  lemma CallBudget(cfg: Config, s: State, i: nat, called: string, key: string, gap: nat)
    requires WellFormed(s) && Enabled(s, Call(i, called), gap)
    ensures var s' := Do(cfg, s, Call(i, called), gap);
      WellFormed(s') && s'.now == s.now && Budget(cfg, s', key) == Budget(cfg, s, key)
  {
  }

  lemma StepBudget(cfg: Config, s: State, a: Action, key: string, gap: nat)
    requires Inv(s, gap) && WellFormed(s) && Enabled(s, a, gap) && StaleAreFull(cfg, s)
    ensures var s' := Do(cfg, s, a, gap);
      WellFormed(s') && s.now <= s'.now && Budget(cfg, s', key) <= Budget(cfg, s, key) + cfg.rps * (s'.now - s.now)
  {
    match a
    case Tick(to) => TickBudget(cfg, s, to, key, gap);
    case Call(i, k) => CallBudget(cfg, s, i, k, key, gap);
    case Go(i) => GoBudget(cfg, s, i, key, gap);
  }

  // ----- runs

  function Start(threads: nat): State {
    State(0, map[], [], None, seq(threads, _ => Idle), multiset{}, multiset{})
  }

  ghost predicate Next(cfg: Config, s: State, s': State, gap: nat) {
    WellFormed(s) && exists a :: Enabled(s, a, gap) && s' == Do(cfg, s, a, gap)
  }

  ghost predicate StepAt(cfg: Config, tr: seq<State>, n: nat, gap: nat)
    requires n + 1 < |tr|
  {
    Next(cfg, tr[n], tr[n + 1], gap)
  }

  ghost predicate IsRun(cfg: Config, tr: seq<State>, threads: nat, gap: nat) {
    && tr != [] && tr[0] == Start(threads)
    && forall n {:trigger StepAt(cfg, tr, n, gap)} :: 0 <= n < |tr| - 1 ==> StepAt(cfg, tr, n, gap)
  }

  lemma {:induction false} InvAlways(cfg: Config, tr: seq<State>, threads: nat, n: nat, gap: nat)
    requires IsRun(cfg, tr, threads, gap) && n < |tr|
    ensures Inv(tr[n], gap) && WellFormed(tr[n])
  {
    if n > 0 {
      InvAlways(cfg, tr, threads, n - 1, gap);
      assert StepAt(cfg, tr, n - 1, gap);
      var a :| Enabled(tr[n - 1], a, gap) && tr[n] == Do(cfg, tr[n - 1], a, gap);
      StepKeepsInv(cfg, tr[n - 1], a, gap);
    }
    InvIsWellFormed(tr[n], gap);
  }

  /** At every moment of the run, buckets found stale are full. */
  ghost predicate AlwaysFull(cfg: Config, tr: seq<State>) {
    forall n :: 0 <= n < |tr| ==> WellFormed(tr[n]) && StaleAreFull(cfg, tr[n])
  }

  lemma BudgetAcross(cfg: Config, tr: seq<State>, threads: nat, n: nat, key: string, gap: nat)
    requires IsRun(cfg, tr, threads, gap) && n + 1 < |tr| && AlwaysFull(cfg, tr)
    ensures Budget(cfg, tr[n + 1], key) <= Budget(cfg, tr[n], key) + cfg.rps * (tr[n + 1].now - tr[n].now)
  {
    InvAlways(cfg, tr, threads, n, gap);
    assert StepAt(cfg, tr, n, gap);
    var a :| Enabled(tr[n], a, gap) && tr[n + 1] == Do(cfg, tr[n], a, gap);
    StepBudget(cfg, tr[n], a, key, gap);
  }

  ghost function Budgets(cfg: Config, tr: seq<State>, i: nat, j: nat, key: string): (x: seq<int>)
    requires i <= j < |tr|
    ensures |x| == j - i + 1
  {
    seq(j - i + 1, n requires 0 <= n <= j - i => if WellFormed(tr[i + n]) then Budget(cfg, tr[i + n], key) else 0)
  }

  function Clock(tr: seq<State>, i: nat, j: nat): (at: seq<int>)
    requires i <= j < |tr|
    ensures |at| == j - i + 1
  {
    seq(j - i + 1, n requires 0 <= n <= j - i => tr[i + n].now)
  }

  lemma BudgetsGrowAtMost(cfg: Config, tr: seq<State>, threads: nat, i: nat, j: nat, key: string, gap: nat)
    requires IsRun(cfg, tr, threads, gap) && i <= j < |tr| && AlwaysFull(cfg, tr)
    ensures GrowsAtMost(Budgets(cfg, tr, i, j, key), Clock(tr, i, j), cfg.rps)
  {
    var x, at := Budgets(cfg, tr, i, j, key), Clock(tr, i, j);
    forall k | 0 < k < |x| ensures x[k] <= x[k - 1] + cfg.rps * (at[k] - at[k - 1]) {
      BudgetAcross(cfg, tr, threads, i + k - 1, key, gap);
    }
  }

  lemma BudgetOver(cfg: Config, tr: seq<State>, threads: nat, i: nat, j: nat, key: string, gap: nat)
    requires IsRun(cfg, tr, threads, gap) && i <= j < |tr| && AlwaysFull(cfg, tr)
    ensures Budget(cfg, tr[j], key) <= Budget(cfg, tr[i], key) + cfg.rps * (tr[j].now - tr[i].now)
  {
    BudgetsGrowAtMost(cfg, tr, threads, i, j, key, gap);
    Telescope(Budgets(cfg, tr, i, j, key), Clock(tr, i, j), cfg.rps, j - i);
  }

  /** Requests for a key that got their token. */
  function Allowed(s: State, key: string): nat {
    s.served[key] + s.strayed[key]
  }

  lemma ExcessWhenFull(cfg: Config, tr: seq<State>, threads: nat, i: nat, j: nat, key: string, gap: nat)
    requires IsRun(cfg, tr, threads, gap) && i <= j < |tr| && AlwaysFull(cfg, tr)
    ensures (tr[j].served[key] - tr[i].served[key]) * SECOND
         <= cfg.burst * SECOND + cfg.rps * (tr[j].now - tr[i].now)
  {
    BudgetOver(cfg, tr, threads, i, j, key, gap);
    assert PoolLevel(cfg, tr[i], key) <= Capacity(cfg);
  }

  /** In every interleaving, the requests allowed for one key in a window number at most the burst,
      what the rate yields in the time of the window, and one for each request of the window that
      took its token from a bucket removed from the pool while it held it. */
  lemma ExcessIsStrayed(cfg: Config, tr: seq<State>, threads: nat, i: nat, j: nat, key: string, gap: nat)
    requires IsRun(cfg, tr, threads, gap) && i <= j < |tr| && RefillsWhileKept(cfg, gap)
    ensures (Allowed(tr[j], key) - Allowed(tr[i], key)) * SECOND
         <= cfg.burst * SECOND + cfg.rps * (tr[j].now - tr[i].now)
          + (tr[j].strayed[key] - tr[i].strayed[key]) * SECOND
  {
    forall n | 0 <= n < |tr| ensures WellFormed(tr[n]) && StaleAreFull(cfg, tr[n]) {
      InvAlways(cfg, tr, threads, n, gap);
      RefillMakesFull(cfg, tr[n], gap);
    }
    ExcessWhenFull(cfg, tr, threads, i, j, key, gap);
  }

  // ----- and that much is possible

  lemma Extend(cfg: Config, tr: seq<State>, threads: nat, gap: nat, a: Action) returns (tr': seq<State>)
    requires IsRun(cfg, tr, threads, gap) && WellFormed(tr[|tr| - 1]) && Enabled(tr[|tr| - 1], a, gap)
    ensures IsRun(cfg, tr', threads, gap) && tr' == tr + [Do(cfg, tr[|tr| - 1], a, gap)]
  {
    tr' := tr + [Do(cfg, tr[|tr| - 1], a, gap)];
    forall n | 0 <= n < |tr'| - 1 ensures StepAt(cfg, tr', n, gap) {
      if n < |tr| - 1 {
        assert StepAt(cfg, tr, n, gap);
      }
    }
  }

  /** `n` of the threads hold the first bucket of key "a", made at time 0; the last thread is idle. */
  function Holding(cfg: Config, threads: nat, n: nat): State
    requires n < threads
  {
    State(0, map["a" := 0], [Entry("a", NewBucket(cfg, 0))], None,
          seq(threads, t => if t < n then Got("a", 0) else Idle), multiset{}, multiset{})
  }

  lemma {:induction false} ReachHolding(cfg: Config, threads: nat, n: nat, gap: nat) returns (tr: seq<State>)
    requires 0 < n < threads
    ensures IsRun(cfg, tr, threads, gap) && tr[|tr| - 1] == Holding(cfg, threads, n)
  {
    if n == 1 {
      tr := Extend(cfg, [Start(threads)], threads, gap, Call(0, "a"));
      tr := Extend(cfg, tr, threads, gap, Go(0));
      assert tr[|tr| - 1].threads == Holding(cfg, threads, 1).threads;
    } else {
      tr := ReachHolding(cfg, threads, n - 1, gap);
      tr := Extend(cfg, tr, threads, gap, Call(n - 1, "a"));
      assert tr[|tr| - 1].threads == Holding(cfg, threads, n).threads;
    }
  }

  /** The pool after a whole request that got its token from the pool. */
  function Requested(cfg: Config, s: State, key: string): State
    requires WellFormed(s) && key in s.buckets && PoolLevel(cfg, s, key) >= SECOND
  {
    var b := Bucket(PoolLevel(cfg, s, key) - SECOND, s.now, s.now / SECOND);
    WithBucket(s, s.buckets[key], b).(served := s.served + multiset{key})
  }

  lemma MarkedAndTaken(cfg: Config, s: State, i: nat, key: string)
    requires WellFormed(s) && i < |s.threads| && key in s.buckets && PoolLevel(cfg, s, key) >= SECOND
    ensures var id := s.buckets[key];
      Take(cfg, Mark(s, i, key, id), i, key, id) == Goto(Requested(cfg, s, key), i, Leaving)
  {
    var id := s.buckets[key];
    var s' := Take(cfg, Mark(s, i, key, id), i, key, id);
    assert s'.heap == Requested(cfg, s, key).heap;
    assert s'.threads == s.threads[i := Leaving];
  }

  /** A whole request of an idle thread, from a bucket in the pool with a token, when no cleanup is
      due. */
  lemma WholeRequest(cfg: Config, tr: seq<State>, threads: nat, gap: nat, i: nat, key: string)
    returns (tr': seq<State>)
    requires IsRun(cfg, tr, threads, gap) && WellFormed(tr[|tr| - 1])
    requires i < |tr[|tr| - 1].threads| && tr[|tr| - 1].threads[i].Idle?
    requires key in tr[|tr| - 1].buckets && PoolLevel(cfg, tr[|tr| - 1], key) >= SECOND
    requires !CleanupDue(tr[|tr| - 1].lastClean, tr[|tr| - 1].now)
    ensures IsRun(cfg, tr', threads, gap) && tr <= tr'
    ensures tr'[|tr'| - 1] == Requested(cfg, tr[|tr| - 1], key)
  {
    var s := tr[|tr| - 1];
    var s1 := Goto(s, i, Got(key, s.buckets[key]));
    tr' := Extend(cfg, tr, threads, gap, Call(i, key));
    assert tr'[|tr'| - 1] == s1;
    MarkedAndTaken(cfg, s1, i, key);
    tr' := Extend(cfg, tr', threads, gap, Go(i));
    tr' := Extend(cfg, tr', threads, gap, Go(i));
    assert tr'[|tr'| - 1] == Goto(Requested(cfg, s1, key), i, Leaving);
    tr' := Extend(cfg, tr', threads, gap, Go(i));
    assert tr'[|tr'| - 1].threads == s.threads;
  }

  /** Ten minutes later a request for another key has removed the bucket they hold. */
  function Removed(cfg: Config, threads: nat, n: nat): State
    requires cfg.burst > 0 && n < threads
  {
    State(LATE, map["b" := 1],
          [Entry("a", NewBucket(cfg, 0)), Entry("b", Bucket(Capacity(cfg) - SECOND, LATE, LATE / SECOND))],
          Some(LATE), Holding(cfg, threads, n).threads, multiset{"b"}, multiset{})
  }

  /** The request for the other key, before its cleanup. */
  function Removing(cfg: Config, threads: nat, n: nat): State
    requires cfg.burst > 0 && n < threads
  {
    var s := Removed(cfg, threads, n);
    s.(buckets := map["a" := 0, "b" := 1], lastClean := None, threads := s.threads[n := Leaving])
  }

  lemma ReachRemoving(cfg: Config, threads: nat, n: nat, gap: nat) returns (tr: seq<State>)
    requires 0 < n <= cfg.burst && n < threads
    ensures IsRun(cfg, tr, threads, gap) && tr[|tr| - 1] == Removing(cfg, threads, n)
  {
    Scaled(1, cfg.burst, SECOND);
    tr := ReachHolding(cfg, threads, n, gap);
    tr := Extend(cfg, tr, threads, gap, Tick(LATE));
    tr := Extend(cfg, tr, threads, gap, Call(n, "b"));
    tr := Extend(cfg, tr, threads, gap, Go(n));
    tr := Extend(cfg, tr, threads, gap, Go(n));
    tr := Extend(cfg, tr, threads, gap, Go(n));
    assert tr[|tr| - 1].heap == Removing(cfg, threads, n).heap;
    assert tr[|tr| - 1].threads == Removing(cfg, threads, n).threads;
  }

  lemma ReachRemoved(cfg: Config, threads: nat, n: nat, gap: nat) returns (tr: seq<State>)
    requires 0 < n <= cfg.burst && n < threads
    ensures IsRun(cfg, tr, threads, gap) && tr[|tr| - 1] == Removed(cfg, threads, n)
  {
    tr := ReachRemoving(cfg, threads, n, gap);
    var s := tr[|tr| - 1];
    assert Stale(s.heap[0].bucket, LATE) && !Stale(s.heap[1].bucket, LATE);
    tr := Extend(cfg, tr, threads, gap, Go(n));
    assert tr[|tr| - 1].threads == Removed(cfg, threads, n).threads;
    assert tr[|tr| - 1].buckets == map["b" := 1];
  }

  /** Then the last thread has taken `m` tokens from a new bucket of key "a". */
  function Drained(cfg: Config, threads: nat, n: nat, m: nat): State
    requires 0 < m <= cfg.burst && n < threads
  {
    Scaled(m, cfg.burst, SECOND);
    var s := Removed(cfg, threads, n);
    s.(buckets := map["b" := 1, "a" := 2],
       heap := s.heap + [Entry("a", Bucket(Capacity(cfg) - m * SECOND, LATE, LATE / SECOND))],
       served := multiset{"b"}["a" := m])
  }

  lemma FirstOfNewBucket(cfg: Config, tr: seq<State>, threads: nat, n: nat, gap: nat) returns (tr': seq<State>)
    requires 0 < n <= cfg.burst && n < threads
    requires IsRun(cfg, tr, threads, gap) && tr[|tr| - 1] == Removed(cfg, threads, n)
    ensures IsRun(cfg, tr', threads, gap) && tr <= tr' && tr'[|tr'| - 1] == Drained(cfg, threads, n, 1)
  {
    Scaled(1, cfg.burst, SECOND);
    tr' := Extend(cfg, tr, threads, gap, Call(n, "a"));
    tr' := Extend(cfg, tr', threads, gap, Go(n));
    tr' := Extend(cfg, tr', threads, gap, Go(n));
    tr' := Extend(cfg, tr', threads, gap, Go(n));
    tr' := Extend(cfg, tr', threads, gap, Go(n));
    var s := tr'[|tr'| - 1];
    assert s.threads == Removed(cfg, threads, n).threads;
    assert s.heap == Drained(cfg, threads, n, 1).heap;
    assert s.served == multiset{"b"}["a" := 1];
  }

  lemma {:induction false} ReachDrained(cfg: Config, tr: seq<State>, threads: nat, n: nat, m: nat, gap: nat)
    returns (tr': seq<State>)
    requires 0 < n <= cfg.burst && n < threads && 0 < m <= cfg.burst
    requires IsRun(cfg, tr, threads, gap) && tr[|tr| - 1] == Removed(cfg, threads, n)
    ensures IsRun(cfg, tr', threads, gap) && tr <= tr' && tr'[|tr'| - 1] == Drained(cfg, threads, n, m)
    decreases m
  {
    if m == 1 {
      tr' := FirstOfNewBucket(cfg, tr, threads, n, gap);
    } else {
      tr' := ReachDrained(cfg, tr, threads, n, m - 1, gap);
      var s := tr'[|tr'| - 1];
      Scaled(m, cfg.burst, SECOND);
      assert PoolLevel(cfg, s, "a") == Capacity(cfg) - (m - 1) * SECOND;
      tr' := WholeRequest(cfg, tr', threads, gap, n, "a");
      assert tr'[|tr'| - 1].heap == Drained(cfg, threads, n, m).heap;
      assert tr'[|tr'| - 1].served == multiset{"b"}["a" := m];
    }
  }

  /** The removed bucket after `j` tokens were taken from it. */
  function Orphan(cfg: Config, j: nat): Bucket
    requires j <= cfg.burst
  {
    Scaled(j, cfg.burst, SECOND);
    if j == 0 then NewBucket(cfg, 0) else Bucket(Capacity(cfg) - j * SECOND, LATE, LATE / SECOND)
  }

  /** Finally `j` of the first threads have taken their tokens from the removed bucket. */
  function Strayed(cfg: Config, threads: nat, n: nat, j: nat): State
    requires 0 < n <= cfg.burst && n < threads && j <= n < threads
  {
    var s := Drained(cfg, threads, n, cfg.burst);
    s.(heap := s.heap[0 := Entry("a", Orphan(cfg, j))],
       threads := seq(threads, t => if t < j then Leaving else if t < n then Got("a", 0) else Idle),
       strayed := multiset{}["a" := j])
  }

  lemma OrphanLevel(cfg: Config, j: nat)
    requires j < cfg.burst
    ensures LevelAt(cfg, Orphan(cfg, j), LATE) == Capacity(cfg) - j * SECOND >= SECOND
  {
    Scaled(j + 1, cfg.burst, SECOND);
    Scaled(0, LATE, cfg.rps);
  }

  lemma {:induction false} ReachStrayed(cfg: Config, tr: seq<State>, threads: nat, n: nat, j: nat, gap: nat)
    returns (tr': seq<State>)
    requires 0 < n <= cfg.burst && n < threads && j <= n
    requires IsRun(cfg, tr, threads, gap) && tr[|tr| - 1] == Drained(cfg, threads, n, cfg.burst)
    ensures IsRun(cfg, tr', threads, gap) && tr <= tr' && tr'[|tr'| - 1] == Strayed(cfg, threads, n, j)
    decreases j
  {
    if j == 0 {
      tr' := tr;
      assert tr[|tr| - 1].threads == Strayed(cfg, threads, n, 0).threads;
      assert tr[|tr| - 1].heap == Strayed(cfg, threads, n, 0).heap;
      assert multiset{}["a" := 0] == multiset{};
    } else {
      tr' := ReachStrayed(cfg, tr, threads, n, j - 1, gap);
      OrphanLevel(cfg, j - 1);
      tr' := OneStrays(cfg, tr', threads, n, j - 1, gap);
    }
  }

  /** The next of them has marked the removed bucket. */
  function Straying(cfg: Config, threads: nat, n: nat, j: nat): State
    requires j < n <= cfg.burst && n < threads
  {
    var s := Strayed(cfg, threads, n, j);
    s.(heap := s.heap[0 := Entry("a", Orphan(cfg, j).(lastUsed := LATE / SECOND))],
       threads := s.threads[j := Marked("a", 0, LATE)])
  }

  lemma OneStrays(cfg: Config, tr: seq<State>, threads: nat, n: nat, j: nat, gap: nat) returns (tr': seq<State>)
    requires j < n <= cfg.burst && n < threads
    requires LevelAt(cfg, Orphan(cfg, j), LATE) == Capacity(cfg) - j * SECOND >= SECOND
    requires IsRun(cfg, tr, threads, gap) && tr[|tr| - 1] == Strayed(cfg, threads, n, j)
    ensures IsRun(cfg, tr', threads, gap) && tr <= tr' && tr'[|tr'| - 1] == Strayed(cfg, threads, n, j + 1)
  {
    tr' := Extend(cfg, tr, threads, gap, Go(j));
    assert tr'[|tr'| - 1] == Straying(cfg, threads, n, j);
    AfterStraying(cfg, threads, n, j);
    tr' := Extend(cfg, tr', threads, gap, Go(j));
  }

  lemma AfterStraying(cfg: Config, threads: nat, n: nat, j: nat)
    requires j < n <= cfg.burst && n < threads
    requires LevelAt(cfg, Orphan(cfg, j), LATE) == Capacity(cfg) - j * SECOND >= SECOND
    ensures Take(cfg, Straying(cfg, threads, n, j), j, "a", 0) == Strayed(cfg, threads, n, j + 1)
  {
    var s, goal := Take(cfg, Straying(cfg, threads, n, j), j, "a", 0), Strayed(cfg, threads, n, j + 1);
    assert (j + 1) * SECOND == j * SECOND + SECOND;
    assert s.threads == goal.threads;
    assert s.heap == goal.heap;
    assert s.strayed == goal.strayed;
  }

  /** For any number of requests up to the burst there is a run in which, at one moment, a burst
      gets through and besides every one of them, each from the bucket removed under its hands. */
  lemma StraysGetThrough(cfg: Config, threads: nat, n: nat, gap: nat) returns (tr: seq<State>, i: nat)
    requires 0 < n <= cfg.burst && n < threads
    ensures IsRun(cfg, tr, threads, gap) && i < |tr|
    ensures var s, s' := tr[i], tr[|tr| - 1];
      && s'.now == s.now
      && Allowed(s', "a") == Allowed(s, "a") + cfg.burst + n
      && s'.strayed["a"] == s.strayed["a"] + n
  {
    tr := ReachRemoved(cfg, threads, n, gap);
    i := |tr| - 1;
    tr := ReachDrained(cfg, tr, threads, n, cfg.burst, gap);
    tr := ReachStrayed(cfg, tr, threads, n, n, gap);
    assert tr[i] == Removed(cfg, threads, n);
  }
}
