/**
 The limiter's accounting under concurrency. Threads run `allowOne`; every instruction inside a
 section guarded by the limiter's lock is a step of its own, and every interleaving is a run.
 What the template engine and the token buckets answer is chosen freely at each step.
 */
module RateAccounting {
  import opened MapSum
  import opened Decimal
  import opened Options

  // ----- inline limits and their pool keys

  /** A rate limit of a trigger: a reference to a named pool, or rates of its own. */
  datatype Limit = Limit(pool: string, rps: int, burst: int, key: string)

  predicate IsPoolReference(limit: Limit) {
    limit.pool != ""
  }

  predicate IsInline(limit: Limit) {
    limit.rps > 0 && limit.burst > 0
  }

  type InlineLimit = limit: Limit | IsInline(limit) witness Limit("", 1, 1, "")

  const DEFAULT_KEY: string := "{{.trigger.client_ip}}"
  const INLINE: string := "_inline:"

  function KeyTemplate(limit: Limit): string {
    if limit.key == "" then DEFAULT_KEY else limit.key
  }

  function InlinePoolKey(limit: InlineLimit): string {
    ToDecimal(limit.rps) + ":" + (ToDecimal(limit.burst) + ":" + KeyTemplate(limit))
  }

  lemma SplitAtColon(a: string, s: string, b: string, t: string)
    requires ':' !in a && ':' !in b
    requires a + ":" + s == b + ":" + t
    ensures a == b && s == t
  {
    var w := a + ":" + s;
    assert w[|a|] == ':' && w[|b|] == ':';
    assert |a| <= |b| ==> w[..|a|] == b[..|a|];
    assert forall k :: 0 <= k < |a| ==> w[k] == a[k];
    assert forall k :: 0 <= k < |b| ==> w[k] == b[k];
    assert |a| == |b|;
    assert w[..|a|] == a && w[..|b|] == b;
    assert w[|a| + 1..] == s && w[|b| + 1..] == t;
  }

  /** Two inline limits share a pool exactly when rate, burst and effective key template agree, the
      client address being the template of a limit without one. */
  lemma SharedPoolIff(a: InlineLimit, b: InlineLimit)
    ensures InlinePoolKey(a) == InlinePoolKey(b) <==>
      && a.rps == b.rps && a.burst == b.burst
      && (if a.key == "" then "{{.trigger.client_ip}}" else a.key)
      == (if b.key == "" then "{{.trigger.client_ip}}" else b.key)
  {
    if InlinePoolKey(a) == InlinePoolKey(b) {
      SplitAtColon(ToDecimal(a.rps), ToDecimal(a.burst) + ":" + KeyTemplate(a),
                   ToDecimal(b.rps), ToDecimal(b.burst) + ":" + KeyTemplate(b));
      SplitAtColon(ToDecimal(a.burst), KeyTemplate(a), ToDecimal(b.burst), KeyTemplate(b));
      DecimalInjective(a.rps, b.rps);
      DecimalInjective(a.burst, b.burst);
    }
  }

  function InlineName(key: string): string {
    INLINE + key
  }

  predicate IsInlineName(name: string) {
    |name| >= |INLINE| && name[..|INLINE|] == INLINE
  }

  // ----- the limiter

  /** A pool object; `id` tells apart pools created at different times. */
  datatype Pool = Pool(id: nat, name: string, rps: int, burst: int, key: string)

  datatype Counters = Counters(allowed: nat, denied: nat)

  datatype Metrics = Metrics(allowed: nat, denied: nat, pools: map<string, Counters>)

  /** What a call of `allowOne` answered. */
  datatype Answer =
    | Unlimited
    | PoolNotFound
    | KeyFailed
    | Counted(pool: Pool, allowed: bool)

  /** Where a thread is. `Recheck`, `Register`, `CountTotal` and `CountPool` hold the lock. */
  datatype PC =
    | Idle
    | Lookup(limit: Limit)
    | WantCreate(wanted: InlineLimit)
    | Recheck(wanted: InlineLimit)
    | Register(limit: Limit, pool: Pool)
    | Decide(limit: Limit, pool: Pool)
    | WantCount(limit: Limit, pool: Pool, allowed: bool)
    | CountTotal(limit: Limit, pool: Pool, allowed: bool)
    | CountPool(limit: Limit, pool: Pool, allowed: bool)

  /** `answers` is the history of finished calls and `created` the number of pools so far. */
  datatype State = State(
    named: map<string, Pool>,
    inline: map<string, Pool>,
    metrics: Metrics,
    pcs: seq<PC>,
    holder: Option<nat>,
    created: nat,
    answers: seq<Answer>)

  /** The outcome, for steps that have several. */
  datatype Choice = Call(limit: Limit) | Fail | Verdict(allowed: bool)

  // ----- construction

  datatype PoolConfig = PoolConfig(name: string, rps: int, burst: int, key: string)

  datatype Fault = MissingName | DuplicateName | BadRate | BadBurst | MissingKey | InvalidKey

  datatype Result = Ok(state: State) | Err(index: nat, fault: Fault)

  predicate NewName(configs: seq<PoolConfig>, i: nat)
    requires i < |configs|
  {
    forall j :: 0 <= j < i ==> configs[j].name != configs[i].name
  }

  /** The first thing wrong with the i-th configuration. */
  function FaultOf(configs: seq<PoolConfig>, i: nat, validKey: string -> bool): Option<Fault>
    requires i < |configs|
  {
    var cfg := configs[i];
    if cfg.name == "" then Some(MissingName)
    else if !NewName(configs, i) then Some(DuplicateName)
    else if cfg.rps <= 0 then Some(BadRate)
    else if cfg.burst <= 0 then Some(BadBurst)
    else if cfg.key == "" then Some(MissingKey)
    else if !validKey(cfg.key) then Some(InvalidKey)
    else None
  }

  /** What a fault says of the configuration. */
  predicate Wrong(configs: seq<PoolConfig>, i: nat, validKey: string -> bool, fault: Fault)
    requires i < |configs|
  {
    match fault
    case MissingName => configs[i].name == ""
    case DuplicateName => exists j :: 0 <= j < i && configs[j].name == configs[i].name
    case BadRate => configs[i].rps <= 0
    case BadBurst => configs[i].burst <= 0
    case MissingKey => configs[i].key == ""
    case InvalidKey => !validKey(configs[i].key)
  }

  /** A configuration is in order exactly if nothing is wrong with it: it has a name of its own, a
      positive rate and burst, and a key template that is valid. */
  lemma NoFaultIff(configs: seq<PoolConfig>, i: nat, validKey: string -> bool)
    requires i < |configs|
    ensures FaultOf(configs, i, validKey).None? <==>
      && configs[i].name != "" && configs[i].rps > 0 && configs[i].burst > 0
      && configs[i].key != "" && validKey(configs[i].key)
      && forall j :: 0 <= j < i ==> configs[j].name != configs[i].name
  {
  }

  /** A limiter nobody has called yet. */
  ghost predicate Init(s: State) {
    && s.inline == map[] && s.holder.None? && s.answers == []
    && (forall i :: 0 <= i < |s.pcs| ==> s.pcs[i].Idle?)
    && "" !in s.named
    && (forall name :: name in s.named ==> s.named[name].name == name && s.named[name].id < s.created)
    && s.metrics == Metrics(0, 0, map name | name in s.named :: Counters(0, 0))
  }

  /** The pool of the i-th configuration. */
  function PoolOf(configs: seq<PoolConfig>, i: nat): Pool
    requires i < |configs|
  {
    Pool(i, configs[i].name, configs[i].rps, configs[i].burst, configs[i].key)
  }

  /** The pools are those of the first `n` configurations, each under its name. */
  ghost predicate PoolsOf(configs: seq<PoolConfig>, n: nat, named: map<string, Pool>)
    requires n <= |configs|
  {
    && (forall i :: 0 <= i < n ==> configs[i].name in named && named[configs[i].name] == PoolOf(configs, i))
    && (forall name :: name in named ==> exists i :: 0 <= i < n && configs[i].name == name)
  }

  /** Fails at the first configuration with a fault, and otherwise builds a fresh limiter. */
  method New(configs: seq<PoolConfig>, validKey: string -> bool, threads: nat) returns (r: Result)
    ensures r.Ok? <==> forall i :: 0 <= i < |configs| ==> FaultOf(configs, i, validKey).None?
    ensures r.Err? ==> r.index < |configs| && FaultOf(configs, r.index, validKey) == Some(r.fault)
    ensures r.Err? ==> forall i :: 0 <= i < r.index ==> FaultOf(configs, i, validKey).None?
    ensures r.Ok? ==> Init(r.state) && |r.state.pcs| == threads && PoolsOf(configs, |configs|, r.state.named)
    ensures r.Ok? ==> forall i :: 0 <= i < |configs| ==>
      configs[i].name != "" && configs[i].rps > 0 && configs[i].burst > 0 && configs[i].key != ""
    ensures r.Ok? ==> forall i :: 0 <= i < |configs| ==>
      && configs[i].name in r.state.named
      && var pool := r.state.named[configs[i].name];
         pool.rps == configs[i].rps && pool.burst == configs[i].burst && pool.key == configs[i].key
    ensures r.Err? ==> Wrong(configs, r.index, validKey, r.fault)
  {
    var named: map<string, Pool> := map[];
    var counters: map<string, Counters> := map[];
    for n := 0 to |configs|
      invariant forall i :: 0 <= i < n ==> FaultOf(configs, i, validKey).None?
      invariant PoolsOf(configs, n, named) && "" !in named
      invariant counters == map name | name in named :: Counters(0, 0)
    {
      var cfg := configs[n];
      ghost var fault := FaultOf(configs, n, validKey);
      if cfg.name == "" {
        assert fault == Some(MissingName);
        return Err(n, MissingName);
      }
      if cfg.name in named {
        assert !NewName(configs, n);
        assert fault == Some(DuplicateName);
        return Err(n, DuplicateName);
      }
      assert NewName(configs, n);
      if cfg.rps <= 0 {
        assert fault == Some(BadRate);
        return Err(n, BadRate);
      }
      if cfg.burst <= 0 {
        assert fault == Some(BadBurst);
        return Err(n, BadBurst);
      }
      if cfg.key == "" {
        assert fault == Some(MissingKey);
        return Err(n, MissingKey);
      }
      if !validKey(cfg.key) {
        assert fault == Some(InvalidKey);
        return Err(n, InvalidKey);
      }
      assert fault == None;
      named := named[cfg.name := PoolOf(configs, n)];
      counters := counters[cfg.name := Counters(0, 0)];
    }
    forall i | 0 <= i < |configs|
      ensures configs[i].name != "" && configs[i].rps > 0 && configs[i].burst > 0 && configs[i].key != ""
    {
      NoFaultIff(configs, i, validKey);
    }
    return Ok(State(named, map[], Metrics(0, 0, counters), seq(threads, _ => Idle), None, |configs|, []));
  }

  // ----- steps

  /** Starting, deciding and the steps inside the lock need nothing; the others wait for the lock. */
  predicate Enabled(s: State, i: nat, c: Choice) {
    && i < |s.pcs|
    && match s.pcs[i]
       case Idle => c.Call?
       case Lookup(limit) => IsPoolReference(limit) || IsInline(limit) ==> s.holder.None?
       case WantCreate(_) => s.holder.None?
       case WantCount(_, _, _) => s.holder.None?
       case Decide(_, _) => !c.Call?
       case _ => true
  }

  function Bump(k: Counters, allowed: bool): Counters {
    if allowed then k.(allowed := k.allowed + 1) else k.(denied := k.denied + 1)
  }

  function BumpTotal(m: Metrics, allowed: bool): Metrics {
    if allowed then m.(allowed := m.allowed + 1) else m.(denied := m.denied + 1)
  }

  function BumpPool(m: Metrics, name: string, allowed: bool): Metrics {
    if name in m.pools then m.(pools := m.pools[name := Bump(m.pools[name], allowed)]) else m
  }

  function Goto(s: State, i: nat, pc: PC): State
    requires i < |s.pcs|
  {
    s.(pcs := s.pcs[i := pc])
  }

  function Finish(s: State, i: nat, answer: Answer): State
    requires i < |s.pcs|
  {
    Goto(s, i, Idle).(answers := s.answers + [answer])
  }

  function AfterLookup(s: State, i: nat, limit: Limit): State
    requires i < |s.pcs|
  {
    if IsPoolReference(limit) then
      if limit.pool in s.named then Goto(s, i, Decide(limit, s.named[limit.pool]))
      else Finish(s, i, PoolNotFound)
    else if IsInline(limit) then
      if InlinePoolKey(limit) in s.inline then Goto(s, i, Decide(limit, s.inline[InlinePoolKey(limit)]))
      else Goto(s, i, WantCreate(limit))
    else Finish(s, i, Unlimited)
  }

  function AfterRecheck(s: State, i: nat, limit: InlineLimit): State
    requires i < |s.pcs|
  {
    var key := InlinePoolKey(limit);
    if key in s.inline then Goto(s, i, Decide(limit, s.inline[key])).(holder := None)
    else
      var pool := Pool(s.created, InlineName(key), limit.rps, limit.burst, KeyTemplate(limit));
      Goto(s, i, Register(limit, pool)).(inline := s.inline[key := pool], created := s.created + 1)
  }

  function Step(s: State, i: nat, c: Choice): (s': State)
    requires Enabled(s, i, c)
    ensures |s'.pcs| == |s.pcs| && s'.named == s.named
    ensures forall j :: 0 <= j < |s.pcs| && j != i ==> s'.pcs[j] == s.pcs[j]
    ensures forall key :: key in s.inline ==> key in s'.inline && s'.inline[key] == s.inline[key]
  {
    match s.pcs[i]
    case Idle => Goto(s, i, Lookup(c.limit))
    case Lookup(limit) => AfterLookup(s, i, limit)
    case WantCreate(limit) => Goto(s, i, Recheck(limit)).(holder := Some(i))
    case Recheck(limit) => AfterRecheck(s, i, limit)
    case Register(limit, pool) =>
      Goto(s, i, Decide(limit, pool)).(
        holder := None, metrics := s.metrics.(pools := s.metrics.pools[pool.name := Counters(0, 0)]))
    case Decide(limit, pool) =>
      if c.Fail? then Finish(s, i, KeyFailed) else Goto(s, i, WantCount(limit, pool, c.allowed))
    case WantCount(limit, pool, allowed) => Goto(s, i, CountTotal(limit, pool, allowed)).(holder := Some(i))
    case CountTotal(limit, pool, allowed) =>
      Goto(s, i, CountPool(limit, pool, allowed)).(metrics := BumpTotal(s.metrics, allowed))
    case CountPool(limit, pool, allowed) =>
      Finish(s, i, Counted(pool, allowed)).(holder := None, metrics := BumpPool(s.metrics, pool.name, allowed))
  }

  ghost predicate Next(s: State, s': State) {
    exists i, c {:trigger Enabled(s, i, c)} :: Enabled(s, i, c) && s' == Step(s, i, c)
  }

  ghost predicate StepAt(tr: seq<State>, k: nat)
    requires k + 1 < |tr|
  {
    Next(tr[k], tr[k + 1])
  }

  /** A run from a fresh limiter. */
  ghost predicate IsRun(tr: seq<State>) {
    && |tr| > 0 && Init(tr[0])
    && forall k: nat {:trigger StepAt(tr, k)} :: k + 1 < |tr| ==> StepAt(tr, k)
  }

  // ----- the invariant

  predicate Locked(pc: PC) {
    pc.Recheck? || pc.Register? || pc.CountTotal? || pc.CountPool?
  }

  /** The thread in a locked section is the holder, and the holder is in one. */
  predicate LockOk(s: State) {
    && (forall i :: 0 <= i < |s.pcs| && Locked(s.pcs[i]) ==> s.holder == Some(i))
    && (s.holder.Some? ==> s.holder.value < |s.pcs| && Locked(s.pcs[s.holder.value]))
  }

  /** The pool that the limiter's maps give for a limit. */
  predicate Resolves(s: State, limit: Limit, pool: Pool) {
    if IsPoolReference(limit) then limit.pool in s.named && s.named[limit.pool] == pool
    else IsInline(limit) && InlinePoolKey(limit) in s.inline && s.inline[InlinePoolKey(limit)] == pool
  }

  /** The pool is the one named, or has the rate, burst and key of the inline limit. */
  predicate Serves(limit: Limit, pool: Pool) {
    if IsPoolReference(limit) then pool.name == limit.pool
    else
      && IsInline(limit)
      && pool.name == InlineName(InlinePoolKey(limit))
      && pool.rps == limit.rps && pool.burst == limit.burst && pool.key == KeyTemplate(limit)
  }

  predicate HasPool(pc: PC) {
    pc.Register? || pc.Decide? || pc.WantCount? || pc.CountTotal? || pc.CountPool?
  }

  predicate ThreadOk(s: State, pc: PC) {
    && (HasPool(pc) ==> Resolves(s, pc.limit, pc.pool) && Serves(pc.limit, pc.pool))
    && (pc.WantCreate? || pc.Recheck? ==> !IsPoolReference(pc.wanted))
    && (pc.Register? ==> !IsPoolReference(pc.limit))
  }

  ghost predicate NamedOk(s: State) {
    forall name :: name in s.named ==> s.named[name].name == name
  }

  /** An inline pool carries what its key spells out. */
  predicate Spelled(key: string, pool: Pool) {
    var limit := Limit("", pool.rps, pool.burst, pool.key);
    IsInline(limit) && pool.key != "" && InlinePoolKey(limit) == key && pool.name == InlineName(key)
  }

  ghost predicate InlineOk(s: State) {
    forall key :: key in s.inline ==> Spelled(key, s.inline[key])
  }

  /** The name whose counters the holder is about to create, if any. */
  predicate BeingRegistered(s: State, name: string) {
    && s.holder.Some? && s.holder.value < |s.pcs|
    && s.pcs[s.holder.value].Register? && s.pcs[s.holder.value].pool.name == name
  }

  predicate HasPoolNamed(s: State, name: string) {
    name in s.named || (IsInlineName(name) && name[|INLINE|..] in s.inline)
  }

  /** Every pool has counters, and nothing else has. */
  ghost predicate Registered(s: State) {
    forall name :: name in s.metrics.pools <==> HasPoolNamed(s, name) && !BeingRegistered(s, name)
  }

  function Pick(k: Counters, allowed: bool): nat {
    if allowed then k.allowed else k.denied
  }

  function Total(m: Metrics, allowed: bool): nat {
    if allowed then m.allowed else m.denied
  }

  function Column(pools: map<string, Counters>, allowed: bool): map<string, int> {
    map name | name in pools :: Pick(pools[name], allowed)
  }

  function CounterOf(m: Metrics, name: string, allowed: bool): nat {
    if name in m.pools then Pick(m.pools[name], allowed) else 0
  }

  /** Answers of a pool with the given name. */
  function AnswersOf(answers: seq<Answer>, name: string, allowed: bool): nat {
    if answers == [] then 0
    else
      var last := answers[|answers| - 1];
      AnswersOf(answers[..|answers| - 1], name, allowed)
      + if last.Counted? && last.pool.name == name && last.allowed == allowed then 1 else 0
  }

  /** One if the holder has counted the total but not yet the pool. */
  function Owed(s: State, allowed: bool): nat {
    if s.holder.Some? && s.holder.value < |s.pcs| && s.pcs[s.holder.value].CountPool?
      && s.pcs[s.holder.value].allowed == allowed then 1 else 0
  }

  /** The totals are the sums over pools, up to the holder's pending increment. */
  ghost predicate Balanced(s: State, allowed: bool) {
    Total(s.metrics, allowed) == Sum(Column(s.metrics.pools, allowed)) + Owed(s, allowed)
  }

  /** Every pool's counter is the number of its answers. */
  ghost predicate Exact(s: State, allowed: bool) {
    forall name :: CounterOf(s.metrics, name, allowed) == AnswersOf(s.answers, name, allowed)
  }

  /** Pools carry what they are filed under, and threads hold the pools the maps give. */
  ghost predicate Found(s: State) {
    && NamedOk(s) && InlineOk(s)
    && forall i :: 0 <= i < |s.pcs| ==> ThreadOk(s, s.pcs[i])
  }

  ghost predicate Structure(s: State) {
    LockOk(s) && Found(s) && Registered(s)
  }

  ghost predicate Books(s: State) {
    forall allowed :: Balanced(s, allowed) && Exact(s, allowed)
  }

  /** No named pool has the name of a possible inline pool. */
  ghost predicate NoCollision(named: map<string, Pool>) {
    forall limit: InlineLimit :: InlineName(InlinePoolKey(limit)) !in named
  }

  // ----- every step keeps the invariant

  lemma InlineNameParts(key: string)
    ensures IsInlineName(InlineName(key)) && InlineName(key)[|INLINE|..] == key
  {
  }

  /** A pool found under an inline limit's key was made for the same rate, burst and template. */
  lemma FoundServes(s: State, limit: InlineLimit)
    requires InlineOk(s) && InlinePoolKey(limit) in s.inline && !IsPoolReference(limit)
    ensures Serves(limit, s.inline[InlinePoolKey(limit)])
  {
    var pool := s.inline[InlinePoolKey(limit)];
    SharedPoolIff(limit, Limit("", pool.rps, pool.burst, pool.key));
  }

  /** The limit whose pool this is spells the same key. */
  lemma CreatedIsSpelled(limit: InlineLimit)
    ensures InlinePoolKey(Limit("", limit.rps, limit.burst, KeyTemplate(limit))) == InlinePoolKey(limit)
  {
  }

  /** Steps only add inline pools, so what a thread has found stays where it was found. */
  lemma ThreadStaysOk(s: State, s': State, pc: PC)
    requires ThreadOk(s, pc) && s'.named == s.named
    requires forall key :: key in s.inline ==> key in s'.inline && s'.inline[key] == s.inline[key]
    ensures ThreadOk(s', pc)
  {
  }

  lemma LookupThreadOk(s: State, i: nat, limit: Limit)
    requires Found(s) && i < |s.pcs|
    ensures ThreadOk(AfterLookup(s, i, limit), AfterLookup(s, i, limit).pcs[i])
  {
    if !IsPoolReference(limit) && IsInline(limit) && InlinePoolKey(limit) in s.inline {
      FoundServes(s, limit);
    }
  }

  lemma RecheckThreadOk(s: State, i: nat, limit: InlineLimit)
    requires Found(s) && i < |s.pcs| && !IsPoolReference(limit)
    ensures ThreadOk(AfterRecheck(s, i, limit), AfterRecheck(s, i, limit).pcs[i])
  {
    if InlinePoolKey(limit) in s.inline {
      FoundServes(s, limit);
    }
  }

  lemma OwnThreadOk(s: State, i: nat, c: Choice)
    requires Found(s) && Enabled(s, i, c)
    ensures ThreadOk(Step(s, i, c), Step(s, i, c).pcs[i])
  {
    assert ThreadOk(s, s.pcs[i]);
    match s.pcs[i]
    case Lookup(limit) => LookupThreadOk(s, i, limit);
    case Recheck(limit) => RecheckThreadOk(s, i, limit);
    case _ =>
  }

  lemma StepKeepsThreads(s: State, i: nat, c: Choice)
    requires Found(s) && Enabled(s, i, c)
    ensures forall j :: 0 <= j < |s.pcs| ==> ThreadOk(Step(s, i, c), Step(s, i, c).pcs[j])
  {
    var s' := Step(s, i, c);
    forall j | 0 <= j < |s.pcs| ensures ThreadOk(s', s'.pcs[j]) {
      if j == i {
        OwnThreadOk(s, i, c);
      } else {
        assert ThreadOk(s, s.pcs[j]);
        ThreadStaysOk(s, s', s.pcs[j]);
      }
    }
  }

  lemma StepKeepsLock(s: State, i: nat, c: Choice)
    requires LockOk(s) && Enabled(s, i, c)
    ensures LockOk(Step(s, i, c))
  {
  }

  lemma StepKeepsInline(s: State, i: nat, c: Choice)
    requires InlineOk(s) && Enabled(s, i, c)
    ensures InlineOk(Step(s, i, c))
  {
    if s.pcs[i].Recheck? {
      CreatedIsSpelled(s.pcs[i].wanted);
    }
  }

  lemma RecheckKeepsRegistered(s: State, i: nat, c: Choice)
    requires Structure(s) && Enabled(s, i, c) && s.pcs[i].Recheck?
    requires NoCollision(s.named)
    ensures Registered(Step(s, i, c))
  {
    var key := InlinePoolKey(s.pcs[i].wanted);
    var s' := Step(s, i, c);
    InlineNameParts(key);
    forall name
      ensures name in s'.metrics.pools <==> HasPoolNamed(s', name) && !BeingRegistered(s', name)
    {
      assert name in s.metrics.pools <==> HasPoolNamed(s, name);
      assert IsInlineName(name) ==> name == INLINE + name[|INLINE|..];
    }
  }

  lemma RegisterKeepsRegistered(s: State, i: nat, c: Choice)
    requires Structure(s) && Enabled(s, i, c) && s.pcs[i].Register?
    ensures Registered(Step(s, i, c))
  {
    var s' := Step(s, i, c);
    assert ThreadOk(s, s.pcs[i]);
    InlineNameParts(InlinePoolKey(s.pcs[i].limit));
    forall name
      ensures name in s'.metrics.pools <==> HasPoolNamed(s', name) && !BeingRegistered(s', name)
    {
      assert name in s.metrics.pools <==> HasPoolNamed(s, name) && !BeingRegistered(s, name);
    }
  }

  /** Neither the pools nor the names that have counters change in the other steps. */
  lemma QuietKeepsRegistered(s: State, i: nat, c: Choice)
    requires LockOk(s) && Registered(s) && Enabled(s, i, c)
    requires !s.pcs[i].Recheck? && !s.pcs[i].Register?
    requires s.pcs[i].CountPool? ==> s.pcs[i].pool.name in s.metrics.pools
    ensures Registered(Step(s, i, c))
  {
    var s' := Step(s, i, c);
    assert s'.metrics.pools.Keys == s.metrics.pools.Keys;
    assert s'.named == s.named && s'.inline == s.inline;
    forall name
      ensures name in s'.metrics.pools <==> HasPoolNamed(s', name) && !BeingRegistered(s', name)
    {
      assert name in s.metrics.pools <==> HasPoolNamed(s, name) && !BeingRegistered(s, name);
      assert BeingRegistered(s', name) <==> BeingRegistered(s, name);
    }
  }

  /** A thread that counts finds its pool's counters. */
  lemma PoolHasCounters(s: State, i: nat)
    requires Structure(s) && i < |s.pcs| && s.pcs[i].CountPool?
    ensures s.pcs[i].pool.name in s.metrics.pools
  {
    assert ThreadOk(s, s.pcs[i]);
    if !IsPoolReference(s.pcs[i].limit) {
      InlineNameParts(InlinePoolKey(s.pcs[i].limit));
    }
    assert HasPoolNamed(s, s.pcs[i].pool.name);
  }

  /** Which pool a thread holds does not depend on the names of the pools. */
  lemma StepKeepsFound(s: State, i: nat, c: Choice)
    requires Found(s) && Enabled(s, i, c)
    ensures Found(Step(s, i, c))
  {
    StepKeepsThreads(s, i, c);
    StepKeepsInline(s, i, c);
  }

  lemma StepKeepsStructure(s: State, i: nat, c: Choice)
    requires Structure(s) && Enabled(s, i, c) && NoCollision(s.named)
    ensures Structure(Step(s, i, c))
  {
    StepKeepsFound(s, i, c);
    StepKeepsLock(s, i, c);
    if s.pcs[i].Recheck? {
      RecheckKeepsRegistered(s, i, c);
    } else if s.pcs[i].Register? {
      RegisterKeepsRegistered(s, i, c);
    } else {
      if s.pcs[i].CountPool? {
        PoolHasCounters(s, i);
      }
      QuietKeepsRegistered(s, i, c);
    }
  }

  lemma ColumnUpdate(pools: map<string, Counters>, name: string, k: Counters, allowed: bool)
    ensures Sum(Column(pools[name := k], allowed))
         == Sum(Column(pools, allowed)) - (if name in pools then Pick(pools[name], allowed) else 0) + Pick(k, allowed)
  {
    assert Column(pools[name := k], allowed) == Column(pools, allowed)[name := Pick(k, allowed)];
    SumUpdate(Column(pools, allowed), name, Pick(k, allowed));
  }

  /** Creation adds zeros: the counters it registers were not there. */
  lemma RegisterKeepsBooks(s: State, i: nat, c: Choice)
    requires Structure(s) && Books(s) && Enabled(s, i, c) && s.pcs[i].Register?
    ensures Books(Step(s, i, c))
  {
    var s' := Step(s, i, c);
    var name := s.pcs[i].pool.name;
    assert BeingRegistered(s, name);
    forall allowed ensures Balanced(s', allowed) && Exact(s', allowed) {
      ColumnUpdate(s.metrics.pools, name, Counters(0, 0), allowed);
      assert Balanced(s, allowed) && Exact(s, allowed);
    }
  }

  lemma CountPoolKeepsBooks(s: State, i: nat, c: Choice)
    requires Structure(s) && Books(s) && Enabled(s, i, c) && s.pcs[i].CountPool?
    ensures Books(Step(s, i, c))
  {
    PoolHasCounters(s, i);
    forall allowed ensures Balanced(Step(s, i, c), allowed) && Exact(Step(s, i, c), allowed) {
      CountPoolBalances(s, i, c, allowed);
      CountPoolIsExact(s, i, c, allowed);
    }
  }

  lemma CountPoolBalances(s: State, i: nat, c: Choice, allowed: bool)
    requires LockOk(s) && Balanced(s, allowed) && Enabled(s, i, c)
    requires s.pcs[i].CountPool? && s.pcs[i].pool.name in s.metrics.pools
    ensures Balanced(Step(s, i, c), allowed)
  {
    var CountPool(_, pool, verdict) := s.pcs[i];
    ColumnUpdate(s.metrics.pools, pool.name, Bump(s.metrics.pools[pool.name], verdict), allowed);
  }

  lemma CountPoolIsExact(s: State, i: nat, c: Choice, allowed: bool)
    requires Exact(s, allowed) && Enabled(s, i, c)
    requires s.pcs[i].CountPool? && s.pcs[i].pool.name in s.metrics.pools
    ensures Exact(Step(s, i, c), allowed)
  {
    var s' := Step(s, i, c);
    forall name ensures CounterOf(s'.metrics, name, allowed) == AnswersOf(s'.answers, name, allowed) {
      assert CounterOf(s.metrics, name, allowed) == AnswersOf(s.answers, name, allowed);
      assert s'.answers[..|s'.answers| - 1] == s.answers;
    }
  }

  /** The other steps change no counter but the totals, and log no counted answer. */
  lemma QuietKeepsBooks(s: State, i: nat, c: Choice)
    requires LockOk(s) && Books(s) && Enabled(s, i, c)
    requires !s.pcs[i].Register? && !s.pcs[i].CountPool?
    ensures Books(Step(s, i, c))
  {
    var s' := Step(s, i, c);
    forall allowed ensures Balanced(s', allowed) && Exact(s', allowed) {
      assert Balanced(s, allowed) && Exact(s, allowed);
      QuietBalance(s, i, c, allowed);
      forall name ensures CounterOf(s'.metrics, name, allowed) == AnswersOf(s'.answers, name, allowed) {
        assert CounterOf(s.metrics, name, allowed) == AnswersOf(s.answers, name, allowed);
        assert s'.answers == s.answers || s'.answers[..|s'.answers| - 1] == s.answers;
      }
    }
  }

  lemma QuietBalance(s: State, i: nat, c: Choice, allowed: bool)
    requires LockOk(s) && Enabled(s, i, c) && !s.pcs[i].Register? && !s.pcs[i].CountPool?
    ensures Step(s, i, c).metrics.pools == s.metrics.pools
    ensures Total(Step(s, i, c).metrics, allowed) - Owed(Step(s, i, c), allowed)
         == Total(s.metrics, allowed) - Owed(s, allowed)
  {
    if Locked(s.pcs[i]) {
      assert s.holder == Some(i);
    }
  }

  lemma StepKeepsBooks(s: State, i: nat, c: Choice)
    requires Structure(s) && Books(s) && Enabled(s, i, c)
    ensures Books(Step(s, i, c))
  {
    if s.pcs[i].Register? {
      RegisterKeepsBooks(s, i, c);
    } else if s.pcs[i].CountPool? {
      CountPoolKeepsBooks(s, i, c);
    } else {
      QuietKeepsBooks(s, i, c);
    }
  }

  lemma {:induction false} ZeroColumn(names: set<string>, allowed: bool)
    ensures Sum(Column(map name | name in names :: Counters(0, 0), allowed)) == 0
  {
    var pools := map name | name in names :: Counters(0, 0);
    if names == {} {
      assert Column(pools, allowed) == map[];
    } else {
      var name :| name in names;
      ZeroColumn(names - {name}, allowed);
      var rest := map n | n in names - {name} :: Counters(0, 0);
      assert pools == rest[name := Counters(0, 0)];
      ColumnUpdate(rest, name, Counters(0, 0), allowed);
    }
  }

  lemma InitHolds(s: State)
    requires Init(s)
    ensures Structure(s) && Books(s)
  {
    forall allowed ensures Balanced(s, allowed) && Exact(s, allowed) {
      ZeroColumn(s.named.Keys, allowed);
      assert s.metrics.pools == map name | name in s.named.Keys :: Counters(0, 0);
    }
  }

  ghost predicate Inv(s: State) {
    Structure(s) && Books(s) && NoCollision(s.named)
  }

  lemma NextKeepsInv(s: State, s': State)
    requires Inv(s) && Next(s, s')
    ensures Inv(s') && s'.named == s.named
  {
    var i, c :| Enabled(s, i, c) && s' == Step(s, i, c);
    StepKeepsStructure(s, i, c);
    StepKeepsBooks(s, i, c);
  }

  lemma {:induction false} InvAlways(tr: seq<State>, k: nat)
    requires IsRun(tr) && k < |tr| && NoCollision(tr[0].named)
    ensures Inv(tr[k])
  {
    if k == 0 {
      InitHolds(tr[0]);
    } else {
      InvAlways(tr, k - 1);
      assert StepAt(tr, k - 1);
      NextKeepsInv(tr[k - 1], tr[k]);
    }
  }

  // ----- the results

  /** The totals are the sums over pools. */
  ghost predicate Conserved(s: State) {
    forall allowed :: Total(s.metrics, allowed) == Sum(Column(s.metrics.pools, allowed))
  }

  /** Whenever the lock is free, the totals are the sums over pools, every pool has counters, and
      each counter is the number of calls that pool has answered that way. */
  lemma AccountsHoldWheneverFree(tr: seq<State>, k: nat)
    requires IsRun(tr) && k < |tr| && NoCollision(tr[0].named) && tr[k].holder.None?
    ensures Conserved(tr[k])
    ensures forall name :: HasPoolNamed(tr[k], name) <==> name in tr[k].metrics.pools
    ensures forall name, allowed ::
      CounterOf(tr[k].metrics, name, allowed) == AnswersOf(tr[k].answers, name, allowed)
    ensures forall name :: name in tr[k].metrics.pools ==>
      && tr[k].metrics.pools[name].allowed == AnswersOf(tr[k].answers, name, true)
      && tr[k].metrics.pools[name].denied == AnswersOf(tr[k].answers, name, false)
  {
    InvAlways(tr, k);
    forall allowed ensures Total(tr[k].metrics, allowed) == Sum(Column(tr[k].metrics.pools, allowed)) {
      assert Balanced(tr[k], allowed);
    }
    forall name, allowed ensures CounterOf(tr[k].metrics, name, allowed) == AnswersOf(tr[k].answers, name, allowed) {
      assert Exact(tr[k], allowed);
    }
  }

  lemma {:induction false} InlineOnlyGrows(tr: seq<State>, j: nat, k: nat, key: string)
    requires IsRun(tr) && j <= k < |tr| && key in tr[j].inline
    ensures key in tr[k].inline && tr[k].inline[key] == tr[j].inline[key]
  {
    if j < k {
      InlineOnlyGrows(tr, j, k - 1, key);
      assert StepAt(tr, k - 1);
    }
  }

  lemma {:induction false} FoundAlways(tr: seq<State>, k: nat)
    requires IsRun(tr) && k < |tr|
    ensures Found(tr[k])
  {
    if k > 0 {
      FoundAlways(tr, k - 1);
      assert StepAt(tr, k - 1);
      var i, c :| Enabled(tr[k - 1], i, c) && tr[k] == Step(tr[k - 1], i, c);
      StepKeepsFound(tr[k - 1], i, c);
    }
  }

  /** Two calls with inline limits, at any two moments of a run, are served by the same pool object
      exactly when their rate, burst and effective key template agree. */
  lemma OnePoolPerConfiguration(tr: seq<State>, j: nat, k: nat, p: nat, q: nat)
    requires IsRun(tr) && j <= k < |tr|
    requires p < |tr[j].pcs| && HasPool(tr[j].pcs[p]) && !IsPoolReference(tr[j].pcs[p].limit)
    requires q < |tr[k].pcs| && HasPool(tr[k].pcs[q]) && !IsPoolReference(tr[k].pcs[q].limit)
    ensures
      var a, b := tr[j].pcs[p], tr[k].pcs[q];
      a.pool == b.pool <==>
        a.limit.rps == b.limit.rps && a.limit.burst == b.limit.burst && KeyTemplate(a.limit) == KeyTemplate(b.limit)
  {
    FoundAlways(tr, j);
    FoundAlways(tr, k);
    var a, b := tr[j].pcs[p], tr[k].pcs[q];
    assert ThreadOk(tr[j], a) && ThreadOk(tr[k], b);
    InlineOnlyGrows(tr, j, k, InlinePoolKey(a.limit));
    SharedPoolIff(a.limit, b.limit);
  }

  /** What validation asks of the named pools is enough. */
  lemma ReservedPrefixAvoidsCollisions(named: map<string, Pool>)
    requires forall name :: name in named ==> !("_inline:" <= name)
    ensures NoCollision(named)
  {
    forall limit: InlineLimit ensures InlineName(InlinePoolKey(limit)) !in named {
      InlineNameParts(InlinePoolKey(limit));
      assert "_inline:" <= InlineName(InlinePoolKey(limit));
    }
  }

  // ----- what a call answers

  /** A limit that names a pool is served by that pool or fails; one with a positive rate and burst
      is served by a pool of its own; any other does not limit. */
  lemma LookupAnswers(s: State, i: nat, c: Choice)
    requires Enabled(s, i, c) && s.pcs[i].Lookup?
    ensures var limit, s' := s.pcs[i].limit, Step(s, i, c);
      if limit.pool != "" then
        if limit.pool in s.named then s'.pcs[i] == Decide(limit, s.named[limit.pool]) && s'.answers == s.answers
        else s'.pcs[i].Idle? && s'.answers == s.answers + [PoolNotFound]
      else if limit.rps > 0 && limit.burst > 0 then
        (s'.pcs[i].Decide? || s'.pcs[i].WantCreate?) && s'.answers == s.answers
      else s'.pcs[i].Idle? && s'.answers == s.answers + [Unlimited]
  {
  }

  /** The verdict of the bucket, undisturbed by other threads, is the answer, and is counted once in
      the totals and once for the pool. */
  lemma VerdictIsCounted(s: State, i: nat, c: Choice)
    requires Enabled(s, i, c) && s.pcs[i].Decide? && c.Verdict? && s.holder.None?
    requires s.pcs[i].pool.name in s.metrics.pools
    ensures var pool := s.pcs[i].pool;
      var s' := Step(Step(Step(Step(s, i, c), i, c), i, c), i, c);
      && s'.answers == s.answers + [Counted(pool, c.allowed)] && s'.holder.None?
      && s'.metrics.allowed == s.metrics.allowed + (if c.allowed then 1 else 0)
      && s'.metrics.denied == s.metrics.denied + (if c.allowed then 0 else 1)
      && pool.name in s'.metrics.pools
      && s'.metrics.pools[pool.name].allowed == s.metrics.pools[pool.name].allowed + (if c.allowed then 1 else 0)
      && s'.metrics.pools[pool.name].denied == s.metrics.pools[pool.name].denied + (if c.allowed then 0 else 1)
  {
  }

  /** A key template that fails is answered with an error and counted nowhere. */
  lemma KeyFailureIsAnswered(s: State, i: nat, c: Choice)
    requires Enabled(s, i, c) && s.pcs[i].Decide? && c.Fail?
    ensures Step(s, i, c).answers == s.answers + [KeyFailed] && Step(s, i, c).metrics == s.metrics
    ensures Step(s, i, c).pcs[i].Idle?
  {
  }

  /** The number of answers of a pool is the number of positions at which it answered so. */
  lemma {:induction false} AnswersAre(answers: seq<Answer>, name: string, allowed: bool)
    ensures AnswersOf(answers, name, allowed) == |Answering(answers, name, allowed)|
  {
    if answers != [] {
      var n := |answers| - 1;
      AnswersAre(answers[..n], name, allowed);
      var last := answers[n];
      var it := last.Counted? && last.pool.name == name && last.allowed == allowed;
      assert Answering(answers, name, allowed) == Answering(answers[..n], name, allowed) + if it then {n} else {};
    }
  }

  ghost function Answering(answers: seq<Answer>, name: string, allowed: bool): set<int> {
    set i | 0 <= i < |answers| && answers[i].Counted? && answers[i].pool.name == name && answers[i].allowed == allowed
  }

  // ----- when names do collide

  /** One more step of the first thread. */
  lemma Extend(tr: seq<State>, c: Choice) returns (tr': seq<State>)
    requires IsRun(tr) && Enabled(tr[|tr| - 1], 0, c)
    ensures IsRun(tr') && tr'[0] == tr[0] && tr'[|tr'| - 1] == Step(tr[|tr| - 1], 0, c)
  {
    tr' := tr + [Step(tr[|tr| - 1], 0, c)];
    forall k: nat | k + 1 < |tr'| ensures StepAt(tr', k) {
      if k + 1 < |tr| {
        assert StepAt(tr, k);
      }
    }
  }

  predicate Quiet(s: State) {
    |s.pcs| > 0 && s.pcs[0].Idle? && s.holder.None?
  }

  /** A run may go on with an admitted call of a named pool. */
  lemma NamedCall(tr: seq<State>, name: string) returns (tr': seq<State>)
    requires IsRun(tr) && Quiet(tr[|tr| - 1])
    requires name != "" && name in tr[|tr| - 1].named && tr[|tr| - 1].named[name].name == name
    ensures IsRun(tr') && tr'[0] == tr[0] && Quiet(tr'[|tr'| - 1])
    ensures
      var s, s' := tr[|tr| - 1], tr'[|tr'| - 1];
      s'.inline == s.inline && s'.metrics == BumpPool(BumpTotal(s.metrics, true), name, true)
  {
    tr' := Extend(tr, Call(Limit(name, 0, 0, "")));
    tr' := Extend(tr', Fail);
    tr' := Extend(tr', Verdict(true));
    tr' := Extend(tr', Fail);
    tr' := Extend(tr', Fail);
    tr' := Extend(tr', Fail);
  }

  /** The first call of an inline limit sets the counters under its pool's name to zero. */
  lemma FirstInlineCall(tr: seq<State>, limit: InlineLimit) returns (tr': seq<State>)
    requires IsRun(tr) && Quiet(tr[|tr| - 1])
    requires limit.pool == "" && InlinePoolKey(limit) !in tr[|tr| - 1].inline
    ensures IsRun(tr') && tr'[0] == tr[0] && tr'[|tr'| - 1].holder.None?
    ensures
      var m, name := tr[|tr| - 1].metrics, InlineName(InlinePoolKey(limit));
      tr'[|tr'| - 1].metrics == m.(pools := m.pools[name := Counters(0, 0)])
  {
    tr' := Extend(tr, Call(limit));
    tr' := Extend(tr', Fail);
    tr' := Extend(tr', Fail);
    tr' := Extend(tr', Fail);
    tr' := Extend(tr', Fail);
  }

  /** A named pool that is called before an inline limit of the same name loses its counts. */
  lemma CollisionLosesCounts(s: State, limit: InlineLimit) returns (tr: seq<State>)
    requires Init(s) && |s.pcs| > 0 && InlineName(InlinePoolKey(limit)) in s.named
    ensures IsRun(tr) && tr[0] == s && tr[|tr| - 1].holder.None? && !Conserved(tr[|tr| - 1])
  {
    var own := limit.(pool := "");
    var name := InlineName(InlinePoolKey(own));
    tr := NamedCall([s], name);
    tr := FirstInlineCall(tr, own);
    var m := tr[|tr| - 1].metrics;
    assert m.pools == s.metrics.pools == map n | n in s.named.Keys :: Counters(0, 0);
    ZeroColumn(s.named.Keys, true);
    assert Total(m, true) == 1;
  }

  /** The accounts balance whenever the lock is free, in every run, exactly when no named pool has
      the name of a possible inline pool. */
  lemma ConservedIffNoCollision(s: State)
    requires Init(s) && |s.pcs| > 0
    ensures NoCollision(s.named) <==>
      forall tr: seq<State> :: IsRun(tr) && tr[0] == s && tr[|tr| - 1].holder.None? ==> Conserved(tr[|tr| - 1])
  {
    if NoCollision(s.named) {
      forall tr: seq<State> | IsRun(tr) && tr[0] == s && tr[|tr| - 1].holder.None? ensures Conserved(tr[|tr| - 1]) {
        AccountsHoldWheneverFree(tr, |tr| - 1);
      }
    } else {
      var limit: InlineLimit :| InlineName(InlinePoolKey(limit)) in s.named;
      var tr := CollisionLosesCounts(s, limit);
    }
  }
}
