/**
 The cache: endpoints whose metadata is updated in place. The backing store is foreign and may
 refuse an entry, so whether it accepted is a parameter of `Set`, as are the entry's size and
 the time.
 */
module Cache {
  import opened Collections
  import opened CacheState

  class EndpointCache {
    const maxCost: nat
    var keys: Keys
    var sizeBytes: int
    var sets: nat
    var evictions: nat

    ghost function State(): Endpoint
      reads this
    {
      Endpoint(keys, sizeBytes, sets, evictions)
    }

    ghost predicate Valid()
      reads this
    {
      Accounted(State())
    }

    constructor (limit: nat)
      ensures maxCost == limit && State() == EMPTY && Valid()
    {
      maxCost := limit;
      keys, sizeBytes, sets, evictions := map[], 0, 0, 0;
      new;
      assert Sizes(map[]) == map[];
    }

    method Delete(key: string)
      requires Valid()
      modifies this
      ensures Valid() && State() == Deleted(old(State()), key)
      ensures keys == old(keys) - {key} && sets == old(sets)
      ensures evictions == old(evictions) + if key in old(keys) then 1 else 0
    {
      DeletedAccounted(State(), key);
      if key in keys {
        sizeBytes := sizeBytes - keys[key].size;
        keys := keys - {key};
        evictions := evictions + 1;
      }
    }

    /** The keys in order of age; ties fall in any order, as an unstable sort leaves them. */
    method KeysByAge() returns (order: seq<string>)
      requires Valid()
      ensures NoDup(order) && (forall k :: k in order <==> k in keys) && OldestFirst(keys, order)
      ensures forall i, j :: 0 <= i < j < |order| ==> keys[order[i]].cachedAt <= keys[order[j]].cachedAt
    {
      order := [];
      var rest := keys.Keys;
      while rest != {}
        invariant rest <= keys.Keys && Elems(order) == keys.Keys - rest
        invariant OldestFirst(keys, order)
        decreases rest
      {
        ghost var oldest := OldestKey(keys, rest);
        var k :| k in rest && forall j :: j in rest ==> keys[k].cachedAt <= keys[j].cachedAt;
        NextOldest(keys, order, rest, k);
        order := order + [k];
        rest := rest - {k};
      }
      assert forall k :: k in order <==> k in Elems(order);
    }

    /** The eviction loop: delete down the list until enough is freed. */
    method DeleteUntilFreed(order: seq<string>, needed: nat) returns (n: nat)
      requires Valid() && NoDup(order) && forall i :: 0 <= i < |order| ==> order[i] in keys
      modifies this
      ensures NoShorter(old(keys), order, n, needed)
      ensures n == |order| || Freed(old(keys), order[..n]) >= needed
      ensures Valid() && State() == Evicted(old(State()), order[..n])
    {
      var before := keys;
      ghost var start := State();
      var freed := 0;
      n := 0;
      EvictNone(start, order);
      while n < |order| && freed < needed
        invariant NoShorter(before, order, n, needed)
        invariant freed == Freed(before, order[..n])
        invariant Valid() && State() == Evicted(start, order[..n])
      {
        EvictOneMore(start, order, n);
        Delete(order[n]);
        freed := freed + before[order[n]].size;
        n := n + 1;
      }
    }

    /** Evict oldest-first until `needed` bytes are freed or nothing is left. */
    method EvictFromEndpoint(needed: nat) returns (ghost victims: seq<string>)
      requires Valid()
      modifies this
      ensures IsEviction(old(keys), needed, victims)
      ensures Freed(old(keys), victims) >= needed || forall k :: k in old(keys) ==> k in victims
      ensures victims != [] ==> Freed(old(keys), victims[..|victims| - 1]) < needed
      ensures forall v, k :: v in victims && k in old(keys) && k !in victims ==>
        old(keys)[v].cachedAt <= old(keys)[k].cachedAt
      ensures Valid() && State() == Evicted(old(State()), victims)
    {
      var order := KeysByAge();
      assert Elems(order) == keys.Keys;
      var n := DeleteUntilFreed(order, needed);
      PrefixIsEviction(old(keys), order, n, needed);
      victims := order[..n];
      assert forall k :: k in victims <==> k in Elems(victims);
    }

    /** The locked section that records an entry. */
    method Insert(key: string, size: nat, now: int)
      requires Valid()
      modifies this
      ensures Valid() && State() == Inserted(old(State()), key, Meta(size, now))
      ensures keys == old(keys)[key := Meta(size, now)] && sets == old(sets) + 1 && evictions == old(evictions)
    {
      InsertedAccounted(State(), key, Meta(size, now));
      if key in keys {
        sizeBytes := sizeBytes - keys[key].size;
      }
      keys := keys[key := Meta(size, now)];
      sizeBytes := sizeBytes + size;
      sets := sets + 1;
    }

    /** Stores an entry: every run of the source's `Set` is a `SetStep`. Nothing goes unless the
        entry would take the endpoint above a positive limit, and then what is oldest goes. */
    method Set(key: string, size: nat, now: int, accepted: bool) returns (success: bool)
      requires Valid()
      modifies this
      ensures success == accepted
      ensures Valid() && SetStep(maxCost, old(State()), key, Meta(size, now), accepted, State())
      ensures maxCost == 0 || old(sizeBytes) + size <= maxCost ==>
        Replaces(old(State()), [], key, Meta(size, now), accepted, State())
      ensures maxCost > 0 && old(sizeBytes) + size > maxCost ==>
        exists victims :: IsEviction(old(keys), size, victims)
          && Replaces(old(State()), victims, key, Meta(size, now), accepted, State())
    {
      ghost var start := State();
      ghost var victims: seq<string> := [];
      EvictNone(start, []);
      if maxCost > 0 {
        var needsEviction := sizeBytes + size > maxCost;
        if needsEviction {
          victims := EvictFromEndpoint(size);
        }
      }
      success := accepted;
      if success {
        Insert(key, size, now);
      }
      assert State() == AfterSet(start, victims, key, Meta(size, now), accepted);
      SetEvictsIffFull(maxCost, start, key, Meta(size, now), accepted, State());
    }

    /** Deletes a snapshot of the keys one by one. */
    method Clear()
      requires Valid()
      modifies this
      ensures Valid() && Step(maxCost, old(State()), OpClear, State())
      ensures keys == map[] && sizeBytes == 0 && sets == old(sets) && evictions == old(evictions) + |old(keys)|
    {
      var todo := keys.Keys;
      ghost var all := keys;
      while todo != {}
        invariant Valid() && keys.Keys == todo <= all.Keys
        invariant sets == old(sets) && evictions == old(evictions) + |all| - |keys|
        decreases todo
      {
        var k :| k in todo;
        assert (keys - {k}).Keys == keys.Keys - {k};
        Delete(k);
        todo := todo - {k};
      }
      assert Sizes(map[]) == map[];
    }

    method ClearAll()
      requires Valid()
      modifies this
      ensures Valid() && State() == Dropped(old(State()))
      ensures keys == map[] && sizeBytes == 0 && sets == old(sets) && evictions == old(evictions)
    {
      keys := map[];
      sizeBytes := 0;
      assert Sizes(map[]) == map[];
    }
  }

  lemma NextOldest(keys: Keys, order: seq<string>, rest: set<string>, k: string)
    requires OldestFirst(keys, order) && rest <= keys.Keys && Elems(order) == keys.Keys - rest
    requires k in rest && forall j :: j in rest ==> keys[k].cachedAt <= keys[j].cachedAt
    ensures OldestFirst(keys, order + [k]) && Elems(order + [k]) == keys.Keys - (rest - {k})
  {
    var more := order + [k];
    assert k !in Elems(order);
    assert Elems(more) == Elems(order) + {k};
    forall i, j | 0 <= i < |more| && j in keys && j !in more ensures keys[more[i]].cachedAt <= keys[j].cachedAt {
      assert j !in Elems(order) && j in rest;
      if i < |order| { assert more[i] == order[i] && j !in order; }
    }
  }

  /** The first `n` of the list, but not fewer, may be needed. */
  ghost predicate NoShorter(keys: Keys, order: seq<string>, n: nat, needed: nat)
    requires forall i :: 0 <= i < |order| ==> order[i] in keys
  {
    n <= |order| && (n > 0 ==> Freed(keys, order[..n - 1]) < needed)
  }

  lemma PrefixIsEviction(keys: Keys, order: seq<string>, n: nat, needed: nat)
    requires OldestFirst(keys, order) && Elems(order) == keys.Keys && n <= |order|
    requires NoShorter(keys, order, n, needed)
    requires n == |order| || Freed(keys, order[..n]) >= needed
    ensures IsEviction(keys, needed, order[..n])
  {
    PrefixIsOldestFirst(keys, order, n);
    assert n == |order| ==> order[..n] == order;
    assert n > 0 ==> order[..n][..n - 1] == order[..n - 1];
  }

  lemma PrefixIsOldestFirst(keys: Keys, order: seq<string>, n: nat)
    requires OldestFirst(keys, order) && Elems(order) == keys.Keys && n <= |order|
    ensures OldestFirst(keys, order[..n])
  {
    var v := order[..n];
    forall i, k | 0 <= i < n && k in keys && k !in v ensures keys[v[i]].cachedAt <= keys[k].cachedAt {
      assert k in Elems(order);
      var j := PositionBeyond(order, n, k);
    }
  }

  lemma PositionBeyond(order: seq<string>, n: nat, k: string) returns (j: nat)
    requires n <= |order| && k in order && k !in order[..n]
    ensures n <= j < |order| && order[j] == k
  {
    assert order == order[..n] + order[n..];
    var d :| 0 <= d < |order[n..]| && order[n..][d] == k;
    j := n + d;
  }

  lemma EvictNone(e: Endpoint, order: seq<string>)
    ensures Evicted(e, order[..0]) == e && order[..0] == []
  {
    assert e.keys - Elems<string>([]) == e.keys;
  }

  lemma EvictOneMore(e: Endpoint, order: seq<string>, i: nat)
    requires NoDup(order) && i < |order| && forall j :: 0 <= j < |order| ==> order[j] in e.keys
    ensures Freed(e.keys, order[..i + 1]) == Freed(e.keys, order[..i]) + e.keys[order[i]].size
    ensures Deleted(Evicted(e, order[..i]), order[i]) == Evicted(e, order[..i + 1])
  {
    var front, more, k := order[..i], order[..i + 1], order[i];
    assert more[..i] == front;
    assert k !in front;
    assert e.keys - Elems(more) == e.keys - Elems(front) - {k};
  }

  /** What the schedule parser says of the eviction schedule. */
  datatype Schedule = NoCron | ValidCron | InvalidCron

  datatype EndpointConfig = EndpointConfig(enabled: bool, maxSizeMB: nat, schedule: Schedule)

  /** All endpoints; an endpoint that was never registered has no metadata to keep. */
  class Cache {
    var endpoints: map<string, EndpointCache>

    /** Every registered endpoint is accounted, and no two names share one. */
    ghost predicate Valid()
      reads this, endpoints.Values
    {
      && (forall n :: n in endpoints ==> endpoints[n].Valid())
      && (forall m, n :: m in endpoints && n in endpoints && m != n ==> endpoints[m] != endpoints[n])
    }

    constructor ()
      ensures Valid() && endpoints == map[]
    {
      endpoints := map[];
    }

    /** An endpoint whose cache is enabled, with a valid eviction schedule if it has one, gets
        fresh bookkeeping, also if its name was taken; otherwise nothing changes, and only an
        invalid schedule is an error. */
    method RegisterEndpoint(name: string, cfg: EndpointConfig) returns (ok: bool)
      requires Valid()
      modifies this
      ensures Valid() && (ok <==> !cfg.enabled || cfg.schedule != InvalidCron)
      ensures ok && cfg.enabled ==>
        && endpoints.Keys == old(endpoints).Keys + {name}
        && endpoints[name].maxCost == cfg.maxSizeMB * 1024 * 1024 && endpoints[name].State() == EMPTY
        && forall n :: n in old(endpoints) && n != name ==> endpoints[n] == old(endpoints[n])
      ensures !(ok && cfg.enabled) ==> endpoints == old(endpoints)
    {
      if !cfg.enabled {
        return true;
      }
      if cfg.schedule == InvalidCron {
        return false;
      }
      Track(name, cfg.maxSizeMB * 1024 * 1024);
      return true;
    }

    method Track(name: string, limit: nat)
      requires Valid()
      modifies this
      ensures Valid() && endpoints.Keys == old(endpoints).Keys + {name}
      ensures endpoints[name].maxCost == limit && endpoints[name].State() == EMPTY
      ensures forall n :: n in old(endpoints) && n != name ==> endpoints[n] == old(endpoints[n])
    {
      var ep := new EndpointCache(limit);
      endpoints := endpoints[name := ep];
    }

    method Set(endpoint: string, key: string, size: nat, now: int, accepted: bool) returns (success: bool)
      requires Valid()
      modifies endpoints.Values
      ensures Valid() && success == accepted
      ensures endpoint in endpoints ==> var ep := endpoints[endpoint];
        SetStep(ep.maxCost, old(ep.State()), key, Meta(size, now), accepted, ep.State())
      ensures forall n :: n in endpoints && n != endpoint ==> endpoints[n].State() == old(endpoints[n].State())
    {
      if endpoint !in endpoints {
        return accepted;
      }
      success := endpoints[endpoint].Set(key, size, now, accepted);
    }

    method ClearAll()
      requires Valid()
      modifies endpoints.Values
      ensures Valid()
      ensures forall n :: n in endpoints ==> endpoints[n].State() == Dropped(old(endpoints[n].State()))
    {
      var todo := endpoints.Keys;
      while todo != {}
        invariant todo <= endpoints.Keys && Valid()
        invariant forall n :: n in endpoints ==>
          endpoints[n].State() == if n in todo then old(endpoints[n].State()) else Dropped(old(endpoints[n].State()))
        decreases todo
      {
        var n :| n in todo;
        endpoints[n].ClearAll();
        todo := todo - {n};
      }
    }
  }
}
