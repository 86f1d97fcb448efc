/** Endpoint bookkeeping in every interleaving of the instructions inside the locked sections. */
module CacheInterleaving {
  import opened MapSum

  // ----- inside the lock

  datatype Section = Record(key: string, size: nat) | Remove(key: string) | Reset

  /** Who holds the endpoint's lock, and how many of its instructions are done. */
  datatype Holder = Free | Held(section: Section, pc: nat)

  /** The endpoint's fields, read by snapshots without the lock, and two history counters:
      sets that overwrote a key, and keys dropped by clearing everything. */
  datatype Fields = Fields(
    keys: map<string, nat>, sizeBytes: int, sets: nat, evictions: nat, overwritten: nat, dropped: nat, holder: Holder)

  function Size(keys: map<string, nat>, key: string): nat {
    if key in keys then keys[key] else 0
  }

  /** The next instruction of the section that holds the lock; past the last, the lock is freed. */
  function Instruction(f: Fields): Fields
    requires f.holder.Held?
  {
    var Held(section, pc) := f.holder;
    var next := f.(holder := Held(section, pc + 1));
    match section
    case Record(key, size) =>
      if pc == 0 then next.(sizeBytes := f.sizeBytes - Size(f.keys, key))
      else if pc == 1 then
        next.(keys := f.keys[key := size], overwritten := f.overwritten + if key in f.keys then 1 else 0)
      else if pc == 2 then next.(sizeBytes := f.sizeBytes + size)
      else if pc == 3 then next.(sets := f.sets + 1)
      else f.(holder := Free)
    case Remove(key) =>
      if pc == 0 && key !in f.keys then f.(holder := Free)
      else if pc == 0 then next.(sizeBytes := f.sizeBytes - Size(f.keys, key))
      else if pc == 1 then next.(keys := f.keys - {key})
      else if pc == 2 then next.(evictions := f.evictions + 1)
      else f.(holder := Free)
    case Reset =>
      if pc == 0 then next.(keys := map[], dropped := f.dropped + |f.keys|)
      else if pc == 1 then next.(sizeBytes := 0)
      else f.(holder := Free)
  }

  /** Any thread may take a free lock for any section; only the holder runs otherwise. */
  ghost predicate Next(f: Fields, f': Fields) {
    if f.holder.Free? then exists section :: f' == f.(holder := Held(section, 0))
    else f' == Instruction(f)
  }

  /** So many instructions of the section that holds the lock. */
  function Instructions(f: Fields, n: nat): Fields
    decreases n
  {
    if n == 0 || f.holder.Free? then f else Instructions(Instruction(f), n - 1)
  }

  /** A section run to its end records the key with its size, ... */
  lemma RecordSection(f: Fields, key: string, size: nat)
    requires f.holder.Free?
    ensures var was, f' := if key in f.keys then f.keys[key] else 0,
                           Instructions(f.(holder := Held(Record(key, size), 0)), 5);
      && f'.holder.Free? && f'.keys == f.keys[key := size] && f'.sizeBytes == f.sizeBytes - was + size
      && f'.sets == f.sets + 1 && f'.evictions == f.evictions && f'.dropped == f.dropped
  {
    var f1 := Instruction(f.(holder := Held(Record(key, size), 0)));
    var f2 := Instruction(f1);
    var f3 := Instruction(f2);
    assert Instructions(f3, 2) == Instruction(Instruction(f3));
    assert Instructions(f1, 4) == Instructions(f2, 3) == Instructions(f3, 2);
  }

  /** ... or removes the key, counting it if it was there, ... */
  lemma RemoveSection(f: Fields, key: string)
    requires f.holder.Free?
    ensures var f' := Instructions(f.(holder := Held(Remove(key), 0)), 4);
      && f'.holder.Free? && f'.keys == f.keys - {key} && f'.sets == f.sets && f'.dropped == f.dropped
      && f'.sizeBytes == f.sizeBytes - (if key in f.keys then f.keys[key] else 0)
      && f'.evictions == f.evictions + (if key in f.keys then 1 else 0)
  {
    var f1 := Instruction(f.(holder := Held(Remove(key), 0)));
    if key in f.keys {
      var f2 := Instruction(f1);
      assert Instructions(f2, 2) == Instruction(Instruction(f2));
      assert Instructions(f1, 3) == Instructions(f2, 2);
    } else {
      assert f.keys - {key} == f.keys;
    }
  }

  /** ... or drops every key. */
  lemma ResetSection(f: Fields)
    requires f.holder.Free?
    ensures var f' := Instructions(f.(holder := Held(Reset, 0)), 3);
      && f'.holder.Free? && f'.keys == map[] && f'.sizeBytes == 0 && f'.sets == f.sets && f'.evictions == f.evictions
  {
    var f1 := Instruction(f.(holder := Held(Reset, 0)));
    assert Instructions(f1, 2) == Instruction(Instruction(f1));
  }

  ghost function Total(keys: map<string, nat>): int {
    Sum(keys)
  }

  /** Sets not yet, or no longer, represented by a tracked key or a counted removal. */
  ghost predicate Balanced(f: Fields, pending: int) {
    |f.keys| + f.evictions + f.overwritten + f.dropped == f.sets + pending
  }

  /** The size account, up to what the section in progress still has to add. */
  ghost predicate Sized(f: Fields, owed: int) {
    f.sizeBytes == Total(f.keys) - owed
  }

  ghost predicate Inv(f: Fields) {
    match f.holder
    case Free => Sized(f, 0) && Balanced(f, 0)
    case Held(Record(key, size), pc) =>
      if pc == 0 then Sized(f, 0) && Balanced(f, 0)
      else if pc == 1 then Sized(f, Size(f.keys, key)) && Balanced(f, 0)
      else if pc == 2 then key in f.keys && f.keys[key] == size && Sized(f, size) && Balanced(f, 1)
      else if pc == 3 then Sized(f, 0) && Balanced(f, 1)
      else pc == 4 && Sized(f, 0) && Balanced(f, 0)
    case Held(Remove(key), pc) =>
      if pc == 0 then Sized(f, 0) && Balanced(f, 0)
      else if pc == 1 then key in f.keys && Sized(f, f.keys[key]) && Balanced(f, 0)
      else if pc == 2 then Sized(f, 0) && Balanced(f, -1)
      else pc == 3 && Sized(f, 0) && Balanced(f, 0)
    case Held(Reset, pc) =>
      if pc == 0 then Sized(f, 0) && Balanced(f, 0)
      else if pc == 1 then f.keys == map[] && f.sizeBytes >= 0 && Balanced(f, 0)
      else pc == 2 && Sized(f, 0) && Balanced(f, 0)
  }

  lemma TotalUpdate(keys: map<string, nat>, key: string, size: nat)
    ensures Total(keys[key := size]) == Total(keys) - Size(keys, key) + size
    ensures |keys[key := size]| == |keys| + if key in keys then 0 else 1
  {
    SumUpdate(keys, key, size);
    var keys' := keys[key := size];
    if key in keys {
      assert keys'.Keys == keys.Keys;
    } else {
      assert keys'.Keys == keys.Keys + {key};
    }
  }

  lemma TotalRemove(keys: map<string, nat>, key: string)
    requires key in keys
    ensures Total(keys - {key}) == Total(keys) - keys[key]
    ensures |keys - {key}| == |keys| - 1
  {
    SumTakeOut(keys, key);
    assert (keys - {key}).Keys == keys.Keys - {key};
  }

  lemma RecordKeepsInv(f: Fields)
    requires Inv(f) && f.holder.Held? && f.holder.section.Record?
    ensures Inv(Instruction(f))
  {
    TotalUpdate(f.keys, f.holder.section.key, f.holder.section.size);
  }

  lemma RemoveKeepsInv(f: Fields)
    requires Inv(f) && f.holder.Held? && f.holder.section.Remove?
    ensures Inv(Instruction(f))
  {
    if f.holder.section.key in f.keys {
      TotalRemove(f.keys, f.holder.section.key);
    }
  }

  lemma ResetKeepsInv(f: Fields)
    requires Inv(f) && f.holder.Held? && f.holder.section.Reset?
    ensures Inv(Instruction(f))
  {
    SumNonNegative(f.keys);
  }

  lemma NextKeepsInv(f: Fields, f': Fields)
    requires Inv(f) && Next(f, f')
    ensures Inv(f')
  {
    if f.holder.Held? {
      match f.holder.section
      case Record(_, _) => RecordKeepsInv(f);
      case Remove(_) => RemoveKeepsInv(f);
      case Reset => ResetKeepsInv(f);
    }
  }

  const START := Fields(map[], 0, 0, 0, 0, 0, Free)

  ghost predicate IsTrace(tr: seq<Fields>) {
    tr != [] && tr[0] == START && forall i {:trigger StepOf(tr, i)} :: 0 <= i < |tr| - 1 ==> StepOf(tr, i)
  }

  ghost predicate StepOf(tr: seq<Fields>, i: nat)
    requires i + 1 < |tr|
  {
    Next(tr[i], tr[i + 1])
  }

  lemma {:induction false} InvAlways(tr: seq<Fields>, n: nat)
    requires IsTrace(tr) && n < |tr|
    ensures Inv(tr[n])
  {
    if n > 0 {
      InvAlways(tr, n - 1);
      assert StepOf(tr, n - 1);
      NextKeepsInv(tr[n - 1], tr[n]);
    }
  }

  /** In every interleaving: whenever the lock is free, the size is the sum over the tracked
      keys and every set is accounted for, so keys and evictions never exceed sets; and at
      every moment, lock or no lock, the size a snapshot reads is not negative. */
  lemma AccountsHoldWheneverFree(tr: seq<Fields>, n: nat)
    requires IsTrace(tr) && n < |tr|
    ensures tr[n].holder.Free? ==> tr[n].sizeBytes == Total(tr[n].keys)
    ensures tr[n].holder.Free? ==>
      |tr[n].keys| + tr[n].evictions + tr[n].overwritten + tr[n].dropped == tr[n].sets
    ensures tr[n].sizeBytes >= 0
  {
    InvAlways(tr, n);
    SumNonNegative(tr[n].keys);
  }
}
