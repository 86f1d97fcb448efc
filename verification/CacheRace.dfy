/**
 Concurrent calls at one cache endpoint. `Set` checks the limit, lists victims, deletes them and
 inserts in separate locked sections; `Clear` lists and deletes in separate sections. Each of a
 number of callers makes one call after another, and the sections of different callers
 interleave freely.
 */
module CacheRace {
  import opened Collections
  import opened CacheState

  /** Where a call stands: each step is one locked section. */
  datatype Call =
    | Checking(key: string, meta: Meta)
    | Listing(key: string, meta: Meta)
    | Evicting(victims: seq<string>, key: string, meta: Meta)
    | Inserting(key: string, meta: Meta)
    | Deleting(key: string)
    | ClearListing
    | Clearing(todo: seq<string>)
    | Dropping
    | Finished

  /** The endpoint and, for every caller, its present call. */
  datatype System = System(ep: Endpoint, calls: seq<Call>)

  function Goto(s: System, t: nat, call: Call): System
    requires t < |s.calls|
  {
    s.(calls := s.calls[t := call])
  }

  /** The section caller `t` runs next; a refused entry is not inserted. */
  ghost predicate CallStep(maxCost: nat, s: System, t: nat, s': System)
    requires t < |s.calls|
  {
    match s.calls[t]
    case Checking(key, meta) =>
      var full := NeedsEviction(maxCost, s.ep.sizeBytes, meta.size);
      s' == Goto(s, t, if full then Listing(key, meta) else Inserting(key, meta))
    case Listing(key, meta) =>
      exists victims :: IsEviction(s.ep.keys, meta.size, victims) && s' == Goto(s, t, Evicting(victims, key, meta))
    case Evicting(victims, key, meta) =>
      if victims == [] then s' == Goto(s, t, Inserting(key, meta))
      else s' == Goto(s, t, Evicting(victims[1..], key, meta)).(ep := Deleted(s.ep, victims[0]))
    case Inserting(key, meta) =>
      s' == Goto(s, t, Finished) || s' == Goto(s, t, Finished).(ep := Inserted(s.ep, key, meta))
    case Deleting(key) => s' == Goto(s, t, Finished).(ep := Deleted(s.ep, key))
    case ClearListing =>
      exists todo :: NoDup(todo) && Elems(todo) == s.ep.keys.Keys && s' == Goto(s, t, Clearing(todo))
    case Clearing(todo) =>
      if todo == [] then s' == Goto(s, t, Finished)
      else s' == Goto(s, t, Clearing(todo[1..])).(ep := Deleted(s.ep, todo[0]))
    case Dropping => s' == Goto(s, t, Finished).(ep := Dropped(s.ep))
    case Finished => false
  }

  /** A call that begins; an entry to set fits under the limit by itself. */
  predicate Begins(maxCost: nat, call: Call) {
    match call
    case Checking(_, meta) => meta.size <= maxCost
    case Deleting(_) => true
    case ClearListing => true
    case Dropping => true
    case _ => false
  }

  /** One step of caller `t`: a section of its call, or the beginning of its next call. */
  ghost predicate CallerStep(maxCost: nat, s: System, t: nat, s': System) {
    && t < |s.calls|
    && if s.calls[t].Finished? then exists call :: Begins(maxCost, call) && s' == Goto(s, t, call)
       else CallStep(maxCost, s, t, s')
  }

  ghost predicate SystemStep(maxCost: nat, s: System, s': System) {
    exists t: nat :: CallerStep(maxCost, s, t, s')
  }

  ghost predicate StepAt(maxCost: nat, tr: seq<System>, i: nat)
    requires i + 1 < |tr|
  {
    SystemStep(maxCost, tr[i], tr[i + 1])
  }

  function Start(callers: nat): System {
    System(EMPTY, seq(callers, _ => Finished))
  }

  /** A run of so many callers, which is how many calls can be in flight. */
  ghost predicate IsTrace(maxCost: nat, callers: nat, tr: seq<System>) {
    && tr != [] && tr[0] == Start(callers)
    && forall i {:trigger StepAt(maxCost, tr, i)} :: 0 <= i < |tr| - 1 ==> StepAt(maxCost, tr, i)
  }

  ghost predicate Reachable(maxCost: nat, callers: nat, s: System) {
    exists tr :: IsTrace(maxCost, callers, tr) && tr[|tr| - 1] == s
  }

  // ----- the accounts hold in every interleaving

  lemma EmptyAccounted(e: Endpoint)
    requires e.keys == map[] && e.sizeBytes == 0 && e.evictions <= e.sets
    ensures Accounted(e)
  {
    assert Sizes(map[]) == map[];
  }

  /** The section that checks the limit: it changes nothing, and the call goes on to list victims
      exactly if the entry would take the endpoint above a positive limit. */
  lemma ChecksLimit(maxCost: nat, s: System, t: nat, s': System)
    requires CallerStep(maxCost, s, t, s') && s.calls[t].Checking?
    ensures s'.ep == s.ep && |s'.calls| == |s.calls|
    ensures forall u :: 0 <= u < |s.calls| && u != t ==> s'.calls[u] == s.calls[u]
    ensures var call := s.calls[t];
      s'.calls[t] == if maxCost > 0 && s.ep.sizeBytes + call.meta.size > maxCost then Listing(call.key, call.meta)
                     else Inserting(call.key, call.meta)
  {
  }

  /** The section that lists victims changes nothing either: what is listed is the shortest
      oldest-first choice for the size of the entry. */
  lemma ListsOldest(maxCost: nat, s: System, t: nat, s': System)
    requires CallerStep(maxCost, s, t, s') && s.calls[t].Listing?
    ensures s'.ep == s.ep && s'.calls[t].Evicting? && s'.calls[t].key == s.calls[t].key
    ensures s'.calls[t].meta == s.calls[t].meta && IsEviction(s.ep.keys, s.calls[t].meta.size, s'.calls[t].victims)
  {
  }

  /** Clearing lists every key there is. */
  lemma ListsAll(maxCost: nat, s: System, t: nat, s': System)
    requires CallerStep(maxCost, s, t, s') && s.calls[t].ClearListing?
    ensures s'.ep == s.ep && s'.calls[t].Clearing? && forall k :: k in s'.calls[t].todo <==> k in s.ep.keys
  {
    assert forall k :: k in s'.calls[t].todo <==> k in Elems(s'.calls[t].todo);
  }

  /** The sections that delete take out one key and count it if it was there. */
  lemma DeletesOne(maxCost: nat, s: System, t: nat, s': System, key: string)
    requires CallerStep(maxCost, s, t, s')
    requires match s.calls[t]
      case Deleting(k) => k == key
      case Evicting(victims, _, _) => victims != [] && victims[0] == key
      case Clearing(todo) => todo != [] && todo[0] == key
      case _ => false
    ensures s'.ep.keys == s.ep.keys - {key} && s'.ep.sets == s.ep.sets
    ensures s'.ep.evictions == s.ep.evictions + if key in s.ep.keys then 1 else 0
  {
  }

  /** The section that inserts records the entry, unless the store refused it; and the one that drops
      everything drops it uncounted. */
  lemma InsertsOrDrops(maxCost: nat, s: System, t: nat, s': System)
    requires CallerStep(maxCost, s, t, s') && (s.calls[t].Inserting? || s.calls[t].Dropping?)
    ensures s'.calls[t].Finished? && s'.ep.evictions == s.ep.evictions
    ensures s.calls[t].Inserting? && s'.ep != s.ep ==>
      s'.ep.keys == s.ep.keys[s.calls[t].key := s.calls[t].meta] && s'.ep.sets == s.ep.sets + 1
    ensures s.calls[t].Dropping? ==> s'.ep.keys == map[] && s'.ep.sets == s.ep.sets
  {
  }

  lemma StepKeepsAccounts(maxCost: nat, s: System, t: nat, s': System)
    requires CallerStep(maxCost, s, t, s') && Accounted(s.ep)
    ensures Accounted(s'.ep)
  {
    match s.calls[t]
    case Evicting(victims, _, _) => if victims != [] { DeletedAccounted(s.ep, victims[0]); }
    case Inserting(key, meta) => InsertedAccounted(s.ep, key, meta);
    case Deleting(key) => DeletedAccounted(s.ep, key);
    case Clearing(todo) => if todo != [] { DeletedAccounted(s.ep, todo[0]); }
    case Dropping => EmptyAccounted(s'.ep);
    case _ =>
  }

  lemma {:induction false} TraceIsAccounted(maxCost: nat, callers: nat, tr: seq<System>, n: nat)
    requires IsTrace(maxCost, callers, tr) && n < |tr|
    ensures Accounted(tr[n].ep) && |tr[n].calls| == callers
  {
    if n == 0 {
      EmptyAccounted(EMPTY);
    } else {
      TraceIsAccounted(maxCost, callers, tr, n - 1);
      assert StepAt(maxCost, tr, n - 1);
      var t: nat :| CallerStep(maxCost, tr[n - 1], t, tr[n]);
      StepKeepsAccounts(maxCost, tr[n - 1], t, tr[n]);
    }
  }

  /** Whatever interleaving led there, the accounts hold. */
  lemma ReachableIsAccounted(maxCost: nat, callers: nat, s: System)
    requires Reachable(maxCost, callers, s)
    ensures Accounted(s.ep) && |s.calls| == callers
  {
    var tr :| IsTrace(maxCost, callers, tr) && tr[|tr| - 1] == s;
    TraceIsAccounted(maxCost, callers, tr, |tr| - 1);
  }

  // ----- one caller keeps the limit

  /** What a call alone has established when it stands where it stands. */
  ghost predicate CallOk(maxCost: nat, e: Endpoint, call: Call) {
    match call
    case Checking(_, meta) => meta.size <= maxCost
    case Listing(_, meta) => meta.size <= maxCost && NeedsEviction(maxCost, e.sizeBytes, meta.size)
    case Evicting(victims, _, meta) =>
      && NoDup(victims) && (forall i :: 0 <= i < |victims| ==> victims[i] in e.keys)
      && TotalSize(e.keys - Elems(victims)) + meta.size <= maxCost
    case Inserting(_, meta) => e.sizeBytes + meta.size <= maxCost
    case _ => true
  }

  ghost predicate AloneOk(maxCost: nat, s: System) {
    && |s.calls| <= 1 && Accounted(s.ep) && s.ep.sizeBytes <= maxCost
    && (|s.calls| == 1 ==> CallOk(maxCost, s.ep, s.calls[0]))
  }

  lemma ListingKeepsLimit(maxCost: nat, e: Endpoint, key: string, meta: Meta, victims: seq<string>)
    requires maxCost > 0 && Accounted(e) && e.sizeBytes <= maxCost && CallOk(maxCost, e, Listing(key, meta))
    requires IsEviction(e.keys, meta.size, victims)
    ensures CallOk(maxCost, e, Evicting(victims, key, meta))
  {
    EvictionMakesRoom(maxCost, e, meta.size, victims);
    TotalAfterEviction(e.keys, victims);
  }

  lemma EvictingKeepsLimit(maxCost: nat, e: Endpoint, key: string, meta: Meta, victims: seq<string>)
    requires Accounted(e) && victims != [] && CallOk(maxCost, e, Evicting(victims, key, meta))
    ensures CallOk(maxCost, Deleted(e, victims[0]), Evicting(victims[1..], key, meta))
  {
    var v, rest := victims[0], victims[1..];
    assert forall i :: 0 <= i < |rest| ==> rest[i] == victims[i + 1] && rest[i] != v;
    assert Elems(victims) == {v} + Elems(rest);
    assert (e.keys - {v}) - Elems(rest) == e.keys - Elems(victims);
  }

  /** A section that lists or deletes on the way to an insertion. */
  lemma RoomIsKept(maxCost: nat, s: System, s': System)
    requires maxCost > 0 && AloneOk(maxCost, s) && CallerStep(maxCost, s, 0, s')
    requires s.calls[0].Listing? || s.calls[0].Evicting?
    ensures s'.ep.sizeBytes <= maxCost && |s'.calls| == 1 && CallOk(maxCost, s'.ep, s'.calls[0])
  {
    match s.calls[0]
    case Listing(key, meta) =>
      var victims :| IsEviction(s.ep.keys, meta.size, victims) && s' == Goto(s, 0, Evicting(victims, key, meta));
      ListingKeepsLimit(maxCost, s.ep, key, meta, victims);
    case Evicting(victims, key, meta) =>
      if victims == [] {
        assert s.ep.keys - Elems(victims) == s.ep.keys;
      } else {
        EvictingKeepsLimit(maxCost, s.ep, key, meta, victims);
        DeletedAccounted(s.ep, victims[0]);
      }
  }

  /** Every other section. */
  lemma SizeIsKept(maxCost: nat, s: System, s': System)
    requires maxCost > 0 && AloneOk(maxCost, s) && CallerStep(maxCost, s, 0, s')
    requires !s.calls[0].Listing? && !s.calls[0].Evicting?
    ensures s'.ep.sizeBytes <= maxCost && |s'.calls| == 1 && CallOk(maxCost, s'.ep, s'.calls[0])
  {
    match s.calls[0]
    case Inserting(key, meta) => InsertedAccounted(s.ep, key, meta);
    case Deleting(key) => DeletedAccounted(s.ep, key);
    case Clearing(todo) => if todo != [] { DeletedAccounted(s.ep, todo[0]); }
    case _ =>
  }

  lemma AloneKeepsLimit(maxCost: nat, s: System, t: nat, s': System)
    requires maxCost > 0 && AloneOk(maxCost, s) && CallerStep(maxCost, s, t, s')
    ensures AloneOk(maxCost, s')
  {
    StepKeepsAccounts(maxCost, s, t, s');
    if s.calls[0].Listing? || s.calls[0].Evicting? {
      RoomIsKept(maxCost, s, s');
    } else {
      SizeIsKept(maxCost, s, s');
    }
  }

  /** At most one caller: the size never exceeds a positive limit, at any section of any call. */
  lemma {:induction false} AloneWithinLimit(maxCost: nat, callers: nat, tr: seq<System>, n: nat)
    requires maxCost > 0 && callers <= 1 && IsTrace(maxCost, callers, tr) && n < |tr|
    ensures AloneOk(maxCost, tr[n]) && tr[n].ep.sizeBytes <= maxCost
  {
    if n == 0 {
      EmptyAccounted(EMPTY);
    } else {
      AloneWithinLimit(maxCost, callers, tr, n - 1);
      assert StepAt(maxCost, tr, n - 1);
      var t: nat :| CallerStep(maxCost, tr[n - 1], t, tr[n]);
      AloneKeepsLimit(maxCost, tr[n - 1], t, tr[n]);
    }
  }

  // ----- building runs, one section at a time

  lemma Extend(maxCost: nat, callers: nat, s: System, t: nat, s': System)
    requires Reachable(maxCost, callers, s) && CallerStep(maxCost, s, t, s')
    ensures Reachable(maxCost, callers, s')
  {
    var tr :| IsTrace(maxCost, callers, tr) && tr[|tr| - 1] == s;
    var more := tr + [s'];
    assert SystemStep(maxCost, s, s');
    forall i | 0 <= i < |more| - 1 ensures StepAt(maxCost, more, i) {
      if i < |tr| - 1 { assert StepAt(maxCost, tr, i); }
    }
    assert IsTrace(maxCost, callers, more) && more[|more| - 1] == s';
  }

  lemma ThenBegin(maxCost: nat, callers: nat, s: System, t: nat, key: string, meta: Meta) returns (s': System)
    requires Reachable(maxCost, callers, s) && t < |s.calls| && s.calls[t].Finished? && meta.size <= maxCost
    ensures s' == Goto(s, t, Checking(key, meta)) && Reachable(maxCost, callers, s')
  {
    s' := Goto(s, t, Checking(key, meta));
    assert Begins(maxCost, Checking(key, meta));
    Extend(maxCost, callers, s, t, s');
  }

  lemma ThenList(maxCost: nat, callers: nat, s: System, t: nat, key: string, meta: Meta, victims: seq<string>)
    returns (s': System)
    requires Reachable(maxCost, callers, s) && t < |s.calls| && s.calls[t] == Checking(key, meta)
    requires NeedsEviction(maxCost, s.ep.sizeBytes, meta.size) && IsEviction(s.ep.keys, meta.size, victims)
    ensures s' == Goto(s, t, Evicting(victims, key, meta)) && Reachable(maxCost, callers, s')
  {
    var m := Goto(s, t, Listing(key, meta));
    Extend(maxCost, callers, s, t, m);
    s' := Goto(m, t, Evicting(victims, key, meta));
    Extend(maxCost, callers, m, t, s');
    assert s'.calls == s.calls[t := Evicting(victims, key, meta)];
  }

  lemma ThenEvictOne(maxCost: nat, callers: nat, s: System, t: nat, key: string, meta: Meta, v: string)
    returns (s': System)
    requires Reachable(maxCost, callers, s) && t < |s.calls| && s.calls[t] == Evicting([v], key, meta)
    ensures s' == Goto(s, t, Inserting(key, meta)).(ep := Deleted(s.ep, v)) && Reachable(maxCost, callers, s')
  {
    var m := Goto(s, t, Evicting([], key, meta)).(ep := Deleted(s.ep, v));
    assert [v][1..] == [];
    Extend(maxCost, callers, s, t, m);
    s' := Goto(m, t, Inserting(key, meta));
    Extend(maxCost, callers, m, t, s');
    assert s'.calls == s.calls[t := Inserting(key, meta)];
  }

  lemma ThenInsert(maxCost: nat, callers: nat, s: System, t: nat, key: string, meta: Meta) returns (s': System)
    requires Reachable(maxCost, callers, s) && t < |s.calls| && s.calls[t] == Inserting(key, meta)
    ensures s' == Goto(s, t, Finished).(ep := Inserted(s.ep, key, meta)) && Reachable(maxCost, callers, s')
  {
    s' := Goto(s, t, Finished).(ep := Inserted(s.ep, key, meta));
    Extend(maxCost, callers, s, t, s');
  }

  // ----- two callers do not

  /** No call in flight, and every entry of the same size. */
  ghost predicate Resting(s: System, callers: nat, size: nat) {
    && s.calls == seq(callers, _ => Finished)
    && (forall k :: k in s.ep.keys ==> s.ep.keys[k].size == size)
  }

  lemma OldestAlone(keys: Keys, size: nat) returns (v: string)
    requires keys != map[] && size > 0 && forall k :: k in keys ==> keys[k].size == size
    ensures v in keys && IsEviction(keys, size, [v])
  {
    v := OldestKey(keys, keys.Keys);
    assert [v][..0] == [];
  }

  /** Two calls at an endpoint that is full both list the same victim ... */
  lemma BothList(maxCost: nat, callers: nat, s0: System, meta: Meta, a: string, b: string, v: string)
    returns (s: System)
    requires Reachable(maxCost, callers, s0) && meta.size <= maxCost
    requires |s0.calls| >= 2 && s0.calls[0].Finished? && s0.calls[1].Finished?
    requires NeedsEviction(maxCost, s0.ep.sizeBytes, meta.size) && IsEviction(s0.ep.keys, meta.size, [v])
    ensures Reachable(maxCost, callers, s)
    ensures s == Goto(Goto(s0, 0, Evicting([v], a, meta)), 1, Evicting([v], b, meta))
  {
    s := ThenBegin(maxCost, callers, s0, 0, a, meta);
    s := ThenBegin(maxCost, callers, s, 1, b, meta);
    s := ThenList(maxCost, callers, s, 0, a, meta, [v]);
    s := ThenList(maxCost, callers, s, 1, b, meta, [v]);
    assert s.calls == s0.calls[0 := Evicting([v], a, meta)][1 := Evicting([v], b, meta)];
  }

  /** ... both delete it, the second in vain, and both insert. */
  lemma BothInsert(maxCost: nat, callers: nat, s0: System, meta: Meta, a: string, b: string, v: string)
    returns (s: System)
    requires Reachable(maxCost, callers, s0) && |s0.calls| >= 2
    requires s0.calls[0] == Evicting([v], a, meta) && s0.calls[1] == Evicting([v], b, meta)
    ensures Reachable(maxCost, callers, s)
    ensures s == Goto(Goto(s0, 0, Finished), 1, Finished).(
      ep := Inserted(Inserted(Deleted(s0.ep, v), a, meta), b, meta))
  {
    s := ThenEvictOne(maxCost, callers, s0, 0, a, meta, v);
    s := ThenEvictOne(maxCost, callers, s, 1, b, meta, v);
    assert s.ep == Deleted(s0.ep, v);
    s := ThenInsert(maxCost, callers, s, 0, a, meta);
    s := ThenInsert(maxCost, callers, s, 1, b, meta);
    assert s.calls == s0.calls[0 := Finished][1 := Finished];
  }

  /** So an endpoint that is full gains an entry, although each call made room for its own. */
  lemma RaceGainsOne(maxCost: nat, callers: nat, s0: System, size: nat) returns (s: System)
    requires callers >= 2 && 0 < size <= maxCost && Reachable(maxCost, callers, s0) && Resting(s0, callers, size)
    requires s0.ep.keys != map[] && NeedsEviction(maxCost, s0.ep.sizeBytes, size)
    ensures Reachable(maxCost, callers, s) && Resting(s, callers, size)
    ensures s.ep.sizeBytes == s0.ep.sizeBytes + size
  {
    var a := NovelName(s0.ep.keys.Keys);
    var b := NovelName(s0.ep.keys.Keys + {a});
    var v := OldestAlone(s0.ep.keys, size);
    var meta := Meta(size, 0);
    var m := BothList(maxCost, callers, s0, meta, a, b, v);
    s := BothInsert(maxCost, callers, m, meta, a, b, v);
    GainOfOne(s0.ep, a, b, v, size);
    assert s.calls == s0.calls;
  }

  lemma GainOfOne(e: Endpoint, a: string, b: string, v: string, size: nat)
    requires v in e.keys && a !in e.keys && b !in e.keys && a != b
    requires forall k :: k in e.keys ==> e.keys[k].size == size
    ensures var e' := Inserted(Inserted(Deleted(e, v), a, Meta(size, 0)), b, Meta(size, 0));
            e'.sizeBytes == e.sizeBytes + size && forall k :: k in e'.keys ==> e'.keys[k].size == size
  {
  }

  /** While it fits, one call adds an entry. */
  lemma CallAddsOne(maxCost: nat, callers: nat, s0: System, size: nat) returns (s: System)
    requires callers >= 1 && size <= maxCost && Reachable(maxCost, callers, s0) && Resting(s0, callers, size)
    requires !NeedsEviction(maxCost, s0.ep.sizeBytes, size)
    ensures Reachable(maxCost, callers, s) && Resting(s, callers, size)
    ensures s.ep.sizeBytes == s0.ep.sizeBytes + size
  {
    var a := NovelName(s0.ep.keys.Keys);
    var meta := Meta(size, 0);
    var m := ThenBegin(maxCost, callers, s0, 0, a, meta);
    s := Goto(m, 0, Inserting(a, meta));
    Extend(maxCost, callers, m, 0, s);
    s := ThenInsert(maxCost, callers, s, 0, a, meta);
    assert s.calls == s0.calls;
  }

  lemma StartIsReachable(maxCost: nat, callers: nat)
    ensures Reachable(maxCost, callers, Start(callers))
  {
    var tr := [Start(callers)];
    assert IsTrace(maxCost, callers, tr) && tr[|tr| - 1] == Start(callers);
  }

  /** The check under the lock does not prevent the race: although every entry fits under the
      limit by itself, two callers reach every multiple of any such size. */
  lemma {:induction false} NoBoundUnderConcurrency(maxCost: nat, callers: nat, size: nat, n: nat) returns (s: System)
    requires callers >= 2 && 0 < size <= maxCost
    ensures Reachable(maxCost, callers, s) && Resting(s, callers, size) && s.ep.sizeBytes == n * size
  {
    if n == 0 {
      s := Start(callers);
      StartIsReachable(maxCost, callers);
    } else {
      s := NoBoundUnderConcurrency(maxCost, callers, size, n - 1);
      assert n * size == (n - 1) * size + size;
      if NeedsEviction(maxCost, s.ep.sizeBytes, size) {
        NotEmpty(maxCost, callers, s, size);
        s := RaceGainsOne(maxCost, callers, s, size);
      } else {
        s := CallAddsOne(maxCost, callers, s, size);
      }
    }
  }

  lemma NotEmpty(maxCost: nat, callers: nat, s: System, size: nat)
    requires Reachable(maxCost, callers, s) && size <= maxCost && NeedsEviction(maxCost, s.ep.sizeBytes, size)
    ensures s.ep.keys != map[]
  {
    ReachableIsAccounted(maxCost, callers, s);
    assert Sizes(map[]) == map[];
  }

  /** The size stays within a positive limit in every run of so many callers, entries that fit by
      themselves provided, exactly when there is at most one caller. */
  lemma LimitHoldsIffAlone(maxCost: nat, callers: nat)
    requires maxCost > 0
    ensures callers <= 1 <==>
      forall tr: seq<System>, n :: IsTrace(maxCost, callers, tr) && 0 <= n < |tr| ==> tr[n].ep.sizeBytes <= maxCost
  {
    if callers <= 1 {
      forall tr: seq<System>, n | IsTrace(maxCost, callers, tr) && 0 <= n < |tr| ensures tr[n].ep.sizeBytes <= maxCost {
        AloneWithinLimit(maxCost, callers, tr, n);
      }
    } else {
      var s := NoBoundUnderConcurrency(maxCost, callers, maxCost, 2);
      var tr: seq<System> :| IsTrace(maxCost, callers, tr) && tr[|tr| - 1] == s;
      assert tr[|tr| - 1].ep.sizeBytes > maxCost;
    }
  }
}
