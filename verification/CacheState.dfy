/**
 The bookkeeping of one cache endpoint as values: which keys are tracked with which sizes, what
 an oldest-first eviction is, and what every sequence of operations keeps.
 */
module CacheState {
  import opened Collections
  import opened MapSum

  datatype Meta = Meta(size: nat, cachedAt: int)

  type Keys = map<string, Meta>

  ghost function Sizes(keys: Keys): map<string, int> {
    map k | k in keys :: keys[k].size
  }

  ghost function TotalSize(keys: Keys): int {
    Sum(Sizes(keys))
  }

  lemma TotalAfterInsert(keys: Keys, key: string, meta: Meta)
    ensures TotalSize(keys[key := meta]) == TotalSize(keys) - (if key in keys then keys[key].size else 0) + meta.size
  {
    assert Sizes(keys[key := meta]) == Sizes(keys)[key := meta.size];
    SumUpdate(Sizes(keys), key, meta.size);
  }

  lemma TotalAfterRemove(keys: Keys, key: string)
    requires key in keys
    ensures TotalSize(keys - {key}) == TotalSize(keys) - keys[key].size
  {
    assert Sizes(keys - {key}) == Sizes(keys) - {key};
    SumTakeOut(Sizes(keys), key);
  }

  lemma TotalBounds(keys: Keys)
    ensures TotalSize(keys) >= 0
    ensures forall k :: k in keys ==> keys[k].size <= TotalSize(keys)
  {
    SumNonNegative(Sizes(keys));
    assert forall k :: k in keys ==> k in Sizes(keys);
  }

  // ----- eviction

  ghost function Freed(keys: Keys, victims: seq<string>): nat
    requires forall i :: 0 <= i < |victims| ==> victims[i] in keys
  {
    if victims == [] then 0
    else Freed(keys, victims[..|victims| - 1]) + keys[victims[|victims| - 1]].size
  }

  /** Victims in order of age, and nothing that stays is older than a victim. */
  ghost predicate OldestFirst(keys: Keys, victims: seq<string>) {
    && NoDup(victims)
    && (forall i :: 0 <= i < |victims| ==> victims[i] in keys)
    && (forall i, j :: 0 <= i < j < |victims| ==> keys[victims[i]].cachedAt <= keys[victims[j]].cachedAt)
    && (forall i, k :: 0 <= i < |victims| && k in keys && k !in victims ==>
          keys[victims[i]].cachedAt <= keys[k].cachedAt)
  }

  /** The shortest oldest-first choice that frees what is needed, or all keys. */
  ghost predicate IsEviction(keys: Keys, needed: nat, victims: seq<string>) {
    && OldestFirst(keys, victims)
    && (Freed(keys, victims) >= needed || Elems(victims) == keys.Keys)
    && (victims != [] ==> Freed(keys, victims[..|victims| - 1]) < needed)
  }

  lemma {:induction false} TotalAfterEviction(keys: Keys, victims: seq<string>)
    requires NoDup(victims) && forall i :: 0 <= i < |victims| ==> victims[i] in keys
    ensures TotalSize(keys - Elems(victims)) == TotalSize(keys) - Freed(keys, victims)
    ensures |keys - Elems(victims)| == |keys| - |victims|
    decreases |victims|
  {
    if victims == [] {
      assert keys - Elems(victims) == keys;
    } else {
      var front, last := victims[..|victims| - 1], victims[|victims| - 1];
      TotalAfterEviction(keys, front);
      assert last !in front;
      TotalAfterRemove(keys - Elems(front), last);
      assert keys - Elems(victims) == keys - Elems(front) - {last};
      assert (keys - Elems(victims)).Keys == (keys - Elems(front)).Keys - {last};
    }
  }

  lemma {:induction false} OldestKey(keys: Keys, rest: set<string>) returns (k: string)
    requires rest != {} && rest <= keys.Keys
    ensures k in rest && forall j :: j in rest ==> keys[k].cachedAt <= keys[j].cachedAt
    decreases rest
  {
    k :| k in rest;
    if rest != {k} {
      var m := OldestKey(keys, rest - {k});
      if keys[m].cachedAt < keys[k].cachedAt {
        k := m;
      }
    }
  }

  // ----- the operations

  datatype Endpoint = Endpoint(keys: Keys, sizeBytes: int, sets: nat, evictions: nat)

  ghost predicate Accounted(e: Endpoint) {
    e.sizeBytes == TotalSize(e.keys) && |e.keys| + e.evictions <= e.sets
  }

  ghost function Deleted(e: Endpoint, key: string): Endpoint {
    if key in e.keys then
      e.(keys := e.keys - {key}, sizeBytes := e.sizeBytes - e.keys[key].size, evictions := e.evictions + 1)
    else e
  }

  ghost function Evicted(e: Endpoint, victims: seq<string>): Endpoint
    requires forall i :: 0 <= i < |victims| ==> victims[i] in e.keys
  {
    e.(keys := e.keys - Elems(victims),
       sizeBytes := e.sizeBytes - Freed(e.keys, victims),
       evictions := e.evictions + |victims|)
  }

  /** Everything dropped without counting evictions. */
  ghost function Dropped(e: Endpoint): Endpoint {
    e.(keys := map[], sizeBytes := 0)
  }

  ghost function Inserted(e: Endpoint, key: string, meta: Meta): Endpoint {
    e.(keys := e.keys[key := meta],
       sizeBytes := e.sizeBytes - (if key in e.keys then e.keys[key].size else 0) + meta.size,
       sets := e.sets + 1)
  }

  /** A limit of 0 means no limit. */
  predicate NeedsEviction(maxCost: nat, sizeBytes: int, size: nat) {
    maxCost > 0 && sizeBytes + size > maxCost
  }

  /** `Set` of an entry: evict if it would not fit, then record it if the store took it. */
  ghost predicate SetStep(maxCost: nat, e: Endpoint, key: string, meta: Meta, accepted: bool, e': Endpoint) {
    exists victims :: VictimsOf(maxCost, e, meta, victims) && e' == AfterSet(e, victims, key, meta, accepted)
  }

  /** What is evicted for an entry: nothing if it fits. */
  ghost predicate VictimsOf(maxCost: nat, e: Endpoint, meta: Meta, victims: seq<string>) {
    if NeedsEviction(maxCost, e.sizeBytes, meta.size) then IsEviction(e.keys, meta.size, victims) else victims == []
  }

  ghost function AfterSet(e: Endpoint, victims: seq<string>, key: string, meta: Meta, accepted: bool): Endpoint {
    if forall i :: 0 <= i < |victims| ==> victims[i] in e.keys then
      var roomy := Evicted(e, victims);
      if accepted then Inserted(roomy, key, meta) else roomy
    else e
  }

  lemma EvictedAccounted(e: Endpoint, victims: seq<string>)
    requires Accounted(e) && NoDup(victims) && forall i :: 0 <= i < |victims| ==> victims[i] in e.keys
    ensures Accounted(Evicted(e, victims))
  {
    TotalAfterEviction(e.keys, victims);
  }

  lemma InsertedAccounted(e: Endpoint, key: string, meta: Meta)
    requires Accounted(e)
    ensures Accounted(Inserted(e, key, meta)) && Inserted(e, key, meta).sizeBytes >= meta.size
    ensures Inserted(e, key, meta).sizeBytes <= e.sizeBytes + meta.size
  {
    TotalAfterInsert(e.keys, key, meta);
    var keys := e.keys[key := meta];
    TotalBounds(keys);
    assert key in keys && keys[key] == meta;
    if key in e.keys {
      assert keys.Keys == e.keys.Keys;
    } else {
      assert keys.Keys == e.keys.Keys + {key};
    }
  }

  /** The eviction makes room: what is left and the new entry fit, or the new entry is alone
      too large, and in no case does an endpoint above its limit grow by an entry that fits. */
  lemma EvictionMakesRoom(maxCost: nat, e: Endpoint, size: nat, victims: seq<string>)
    requires Accounted(e) && NeedsEviction(maxCost, e.sizeBytes, size) && IsEviction(e.keys, size, victims)
    ensures var left := Evicted(e, victims).sizeBytes;
            left >= 0 && (left + size <= e.sizeBytes || left == 0)
  {
    TotalAfterEviction(e.keys, victims);
    TotalBounds(e.keys - Elems(victims));
    if Elems(victims) == e.keys.Keys {
      assert e.keys - Elems(victims) == map[];
      assert Sizes(map[]) == map[];
    }
  }

  /** Set keeps the accounts, and an entry that fits alone never takes the endpoint above the
      larger of its limit and its former size; an accepted entry that does not fit always does. */
  lemma SetKeepsLimit(maxCost: nat, e: Endpoint, key: string, meta: Meta, accepted: bool, e': Endpoint)
    requires Accounted(e) && SetStep(maxCost, e, key, meta, accepted, e')
    ensures Accounted(e')
    ensures maxCost > 0 && meta.size <= maxCost ==>
      e'.sizeBytes <= if e.sizeBytes <= maxCost then maxCost else e.sizeBytes
    ensures maxCost > 0 && e.sizeBytes <= maxCost ==> (e'.sizeBytes <= maxCost <==> !accepted || meta.size <= maxCost)
  {
    var victims :| VictimsOf(maxCost, e, meta, victims) && e' == AfterSet(e, victims, key, meta, accepted);
    var roomy := Evicted(e, victims);
    EvictedAccounted(e, victims);
    InsertedAccounted(roomy, key, meta);
    TotalBounds(roomy.keys);
    TotalBounds(e.keys);
    if NeedsEviction(maxCost, e.sizeBytes, meta.size) {
      EvictionMakesRoom(maxCost, e, meta.size, victims);
    }
  }

  /** The victims are gone and counted, an entry the store took is recorded, and every other key
      stays with its metadata. */
  ghost predicate Replaces(e: Endpoint, victims: seq<string>, key: string, meta: Meta, accepted: bool, e': Endpoint) {
    && e'.evictions == e.evictions + |victims|
    && e'.sets == (if accepted then e.sets + 1 else e.sets)
    && (accepted ==> key in e'.keys && e'.keys[key] == meta)
    && (forall k :: k != key || !accepted ==> (k in e'.keys <==> k in e.keys && k !in victims))
    && (forall k :: k in e'.keys && (k != key || !accepted) ==> e'.keys[k] == e.keys[k])
  }

  lemma AfterSetReplaces(e: Endpoint, victims: seq<string>, key: string, meta: Meta, accepted: bool)
    requires forall i :: 0 <= i < |victims| ==> victims[i] in e.keys
    ensures Replaces(e, victims, key, meta, accepted, AfterSet(e, victims, key, meta, accepted))
  {
    assert forall k :: k in Elems(victims) <==> k in victims;
  }

  /** When `Set` evicts, and what: nothing with no limit or with room for the entry, and otherwise
      the victims of an oldest-first eviction for its size. */
  lemma SetEvictsIffFull(maxCost: nat, e: Endpoint, key: string, meta: Meta, accepted: bool, e': Endpoint)
    requires SetStep(maxCost, e, key, meta, accepted, e')
    ensures maxCost == 0 || e.sizeBytes + meta.size <= maxCost ==> Replaces(e, [], key, meta, accepted, e')
    ensures maxCost > 0 && e.sizeBytes + meta.size > maxCost ==>
      exists victims :: IsEviction(e.keys, meta.size, victims) && Replaces(e, victims, key, meta, accepted, e')
  {
    var victims :| VictimsOf(maxCost, e, meta, victims) && e' == AfterSet(e, victims, key, meta, accepted);
    AfterSetReplaces(e, victims, key, meta, accepted);
  }

  lemma DeletedAccounted(e: Endpoint, key: string)
    requires Accounted(e)
    ensures Accounted(Deleted(e, key)) && Deleted(e, key).sizeBytes <= e.sizeBytes
  {
    if key in e.keys {
      TotalAfterRemove(e.keys, key);
      assert (e.keys - {key}).Keys == e.keys.Keys - {key};
    }
  }

  // ----- whole runs

  datatype Op = OpSet(key: string, meta: Meta, accepted: bool) | OpDelete(key: string) | OpClear | OpClearAll

  /** `Clear` deletes every key one by one; `ClearAll` drops them without counting evictions. */
  ghost predicate Step(maxCost: nat, e: Endpoint, op: Op, e': Endpoint) {
    match op
    case OpSet(key, meta, accepted) => SetStep(maxCost, e, key, meta, accepted, e')
    case OpDelete(key) => e' == Deleted(e, key)
    case OpClear => e' == Endpoint(map[], 0, e.sets, e.evictions + |e.keys|)
    case OpClearAll => e' == Dropped(e)
  }

  const EMPTY := Endpoint(map[], 0, 0, 0)

  ghost predicate IsRun(maxCost: nat, states: seq<Endpoint>, ops: seq<Op>) {
    && |states| == |ops| + 1
    && states[0] == EMPTY
    && forall i :: 0 <= i < |ops| ==> StepAt(maxCost, states, ops, i)
  }

  ghost predicate StepAt(maxCost: nat, states: seq<Endpoint>, ops: seq<Op>, i: nat)
    requires i < |ops| && |states| == |ops| + 1
  {
    Step(maxCost, states[i], ops[i], states[i + 1])
  }

  predicate Fits(maxCost: nat, op: Op) {
    op.OpSet? && op.accepted ==> op.meta.size <= maxCost
  }

  lemma StepKeepsAccounts(maxCost: nat, e: Endpoint, op: Op, e': Endpoint)
    requires Accounted(e) && Step(maxCost, e, op, e')
    ensures Accounted(e')
    ensures maxCost > 0 && e.sizeBytes <= maxCost ==> (e'.sizeBytes <= maxCost <==> Fits(maxCost, op))
  {
    assert Sizes(map[]) == map[];
    match op
    case OpSet(key, meta, accepted) => SetKeepsLimit(maxCost, e, key, meta, accepted, e');
    case OpDelete(key) => DeletedAccounted(e, key);
    case OpClear =>
    case OpClearAll =>
  }

  lemma {:induction false} RunKeepsAccounts(maxCost: nat, states: seq<Endpoint>, ops: seq<Op>, n: nat)
    requires IsRun(maxCost, states, ops) && n < |states|
    ensures Accounted(states[n])
    ensures maxCost > 0 && (forall i :: 0 <= i < n ==> Fits(maxCost, ops[i])) ==> states[n].sizeBytes <= maxCost
  {
    if n == 0 {
      assert Sizes(map[]) == map[];
    } else {
      RunKeepsAccounts(maxCost, states, ops, n - 1);
      assert StepAt(maxCost, states, ops, n - 1);
      StepKeepsAccounts(maxCost, states[n - 1], ops[n - 1], states[n]);
    }
  }

  /** Over every sequential run the size stays within a positive limit exactly when every entry
      the store accepted fits under the limit by itself. */
  lemma RunWithinLimitIffEntriesFit(maxCost: nat, states: seq<Endpoint>, ops: seq<Op>)
    requires maxCost > 0 && IsRun(maxCost, states, ops)
    ensures (forall n :: 0 <= n < |states| ==> states[n].sizeBytes <= maxCost)
       <==> (forall i :: 0 <= i < |ops| ==> Fits(maxCost, ops[i]))
  {
    if forall i :: 0 <= i < |ops| ==> Fits(maxCost, ops[i]) {
      forall n | 0 <= n < |states| ensures states[n].sizeBytes <= maxCost {
        RunKeepsAccounts(maxCost, states, ops, n);
      }
    }
    if forall n :: 0 <= n < |states| ==> states[n].sizeBytes <= maxCost {
      forall i | 0 <= i < |ops| ensures Fits(maxCost, ops[i]) {
        RunKeepsAccounts(maxCost, states, ops, i);
        assert states[i + 1].sizeBytes <= maxCost && StepAt(maxCost, states, ops, i);
        StepKeepsAccounts(maxCost, states[i], ops[i], states[i + 1]);
      }
    }
  }
}
