/**
 The write-through cache over a storage (src/starkware/storage/dict_storage.py, CachedStorage).

 A run is a sequence of calls, none started before the previous one ended. Which entries the cache
 evicts, and which writes of the storage fail and how much they wrote before, is left open.
 */
module CachedStorage {
  import opened Common

  function Lookup<K, V>(m: map<K, V>, key: K): Option<V> {
    if key in m then Some(m[key]) else None
  }

  datatype Op<K, V> = SetOp(key: K, value: V)
                    | SetnxOp(key: K, value: V)
                    | GetOp(key: K)
                    | MsetOp(updates: map<K, V>)
                    | MgetOp(keys: seq<K>)
                    | DelOp(key: K)

  datatype Reply<V> = Ok | Raised | Wrote(ok: bool) | Found(value: Option<V>) | Many(values: seq<Option<V>>)

  function LookupAll<K, V>(m: map<K, V>, keys: seq<K>): (r: seq<Option<V>>)
    ensures |r| == |keys|
  {
    if keys == [] then [] else [Lookup(m, keys[0])] + LookupAll(m, keys[1..])
  }

  lemma {:induction false} LookupAllAt<K, V>(m: map<K, V>, keys: seq<K>, i: nat)
    requires i < |keys|
    ensures LookupAll(m, keys)[i] == Lookup(m, keys[i])
  {
    if i > 0 { LookupAllAt(m, keys[1..], i - 1); }
  }

  /** Some of the updates were made. */
  ghost predicate Partial<K, V>(db: map<K, V>, updates: map<K, V>, db': map<K, V>) {
    && db.Keys <= db'.Keys <= db.Keys + updates.Keys
    && forall k :: k in db' ==> (k in updates && db'[k] == updates[k]) || (k in db && db'[k] == db[k])
  }

  // ---------------------------------------------------------------------------
  // The bare storage
  // ---------------------------------------------------------------------------

  /** A call to the storage itself; a failed write may have written none, some or all keys. */
  ghost predicate BareStep<K, V>(db: map<K, V>, op: Op<K, V>, db': map<K, V>, r: Reply<V>) {
    match op
    case SetOp(k, v) => (r == Ok && db' == db[k := v]) || (r == Raised && Partial(db, map[k := v], db'))
    case SetnxOp(k, v) =>
      if k in db then (r == Wrote(false) || r == Raised) && db' == db
      else (r == Wrote(true) && db' == db[k := v]) || (r == Raised && Partial(db, map[k := v], db'))
    case GetOp(k) => r == Found(Lookup(db, k)) && db' == db
    case MsetOp(u) => (r == Ok && db' == db + u) || (r == Raised && Partial(db, u, db'))
    case MgetOp(ks) => r == Many(LookupAll(db, ks)) && db' == db
    case DelOp(_) => r == Raised && db' == db
  }

  // ---------------------------------------------------------------------------
  // The cached storage
  // ---------------------------------------------------------------------------

  datatype State<K, V> = State(db: map<K, V>, cache: map<K, V>)

  /** The entries kept are among the given ones. */
  ghost predicate Kept<K, V>(cache: map<K, V>, from: map<K, V>) {
    forall k :: k in cache ==> k in from && cache[k] == from[k]
  }

  /** The updates that the cache does not hold already. */
  function NewUpdates<K, V(==)>(cache: map<K, V>, updates: map<K, V>): map<K, V> {
    map k | k in updates && Lookup(cache, k) != Some(updates[k]) :: updates[k]
  }

  /** What mget returns. */
  function Combined<K, V>(s: State<K, V>, keys: seq<K>): (r: seq<Option<V>>)
    ensures |r| == |keys|
  {
    if keys == [] then []
    else [if keys[0] in s.cache then Some(s.cache[keys[0]]) else Lookup(s.db, keys[0])] + Combined(s, keys[1..])
  }

  /** The fetched values that exist. */
  ghost function FetchedEntries<K, V>(db: map<K, V>, keys: set<K>): map<K, V> {
    map k | k in keys && k in db :: db[k]
  }

  ghost function MissingKeys<K, V>(cache: map<K, V>, keys: seq<K>): set<K> {
    set k | k in keys && k !in cache
  }

  /** A call to the cached storage. */
  ghost predicate Step<K, V>(s: State<K, V>, op: Op<K, V>, s': State<K, V>, r: Reply<V>) {
    match op
    case SetOp(k, v) =>
      if Lookup(s.cache, k) == Some(v) then r == Ok && s'.db == s.db && Kept(s'.cache, s.cache)
      else
        || (r == Ok && s'.db == s.db[k := v] && Kept(s'.cache, s.cache[k := v]))
        || (r == Raised && Partial(s.db, map[k := v], s'.db) && Kept(s'.cache, s.cache - {k}))
    case SetnxOp(k, v) =>
      if k in s.db then (r == Wrote(false) || r == Raised) && s'.db == s.db && Kept(s'.cache, s.cache)
      else
        || (r == Wrote(true) && s'.db == s.db[k := v] && Kept(s'.cache, s.cache[k := v]))
        || (r == Raised && Partial(s.db, map[k := v], s'.db) && Kept(s'.cache, s.cache))
    case GetOp(k) =>
      && s'.db == s.db
      && (if k in s.cache then r == Found(Some(s.cache[k])) && Kept(s'.cache, s.cache)
          else r == Found(Lookup(s.db, k)) && Kept(s'.cache, s.cache + FetchedEntries(s.db, {k})))
    case MsetOp(u) =>
      var more := NewUpdates(s.cache, u);
      || (r == Ok && s'.db == s.db + more && Kept(s'.cache, s.cache + more))
      || (r == Raised && Partial(s.db, more, s'.db) && Kept(s'.cache, s.cache - more.Keys))
    case MgetOp(ks) =>
      && s'.db == s.db && r == Many(Combined(s, ks))
      && Kept(s'.cache, s.cache + FetchedEntries(s.db, MissingKeys(s.cache, ks)))
    case DelOp(_) => r == Raised && s' == s
  }

  /** Each cached entry equals the stored value. */
  ghost predicate Coherent<K, V>(s: State<K, V>) {
    forall k :: k in s.cache ==> k in s.db && s.cache[k] == s.db[k]
  }

  lemma PartialCoherent<K, V>(s: State<K, V>, u: map<K, V>, s': State<K, V>)
    requires Coherent(s) && Partial(s.db, u, s'.db) && Kept(s'.cache, s.cache - u.Keys)
    ensures Coherent(s')
  {}

  /** Every call keeps the cache coherent, also one that fails. */
  lemma StepCoherent<K, V>(s: State<K, V>, op: Op<K, V>, s': State<K, V>, r: Reply<V>)
    requires Coherent(s) && Step(s, op, s', r)
    ensures Coherent(s')
  {
    match op
    case SetOp(k, v) => if r == Raised { PartialCoherent(s, map[k := v], s'); }
    case SetnxOp(k, v) =>
    case GetOp(k) =>
    case MsetOp(u) => if r == Raised { PartialCoherent(s, NewUpdates(s.cache, u), s'); }
    case MgetOp(ks) =>
    case DelOp(_) =>
  }

  lemma {:induction false} CombinedAt<K, V>(s: State<K, V>, keys: seq<K>, i: nat)
    requires i < |keys|
    ensures Combined(s, keys)[i] == if keys[i] in s.cache then Some(s.cache[keys[i]]) else Lookup(s.db, keys[i])
  {
    if i > 0 { CombinedAt(s, keys[1..], i - 1); }
  }

  lemma {:induction false} CombinedIs<K, V>(s: State<K, V>, keys: seq<K>)
    requires Coherent(s)
    ensures Combined(s, keys) == LookupAll(s.db, keys)
  {
    if keys != [] { CombinedIs(s, keys[1..]); }
  }

  lemma NewUpdatesSuffice<K, V>(s: State<K, V>, u: map<K, V>)
    requires Coherent(s)
    ensures s.db + NewUpdates(s.cache, u) == s.db + u
  {
    var a, b := s.db + NewUpdates(s.cache, u), s.db + u;
    forall k | k in b ensures k in a && a[k] == b[k] {}
  }

  lemma PartialMore<K, V>(s: State<K, V>, u: map<K, V>, db': map<K, V>)
    requires Partial(s.db, NewUpdates(s.cache, u), db')
    ensures Partial(s.db, u, db')
  {}

  /** Every call does and returns what the storage itself might. */
  lemma StepRefines<K, V>(s: State<K, V>, op: Op<K, V>, s': State<K, V>, r: Reply<V>)
    requires Coherent(s) && Step(s, op, s', r)
    ensures BareStep(s.db, op, s'.db, r)
  {
    match op
    case SetOp(k, v) => if Lookup(s.cache, k) == Some(v) { assert s.db[k := v] == s.db; }
    case SetnxOp(k, v) =>
    case GetOp(k) =>
    case MsetOp(u) =>
      NewUpdatesSuffice(s, u);
      if r == Raised { PartialMore(s, u, s'.db); }
    case MgetOp(ks) => CombinedIs(s, ks);
    case DelOp(_) =>
  }

  // ---------------------------------------------------------------------------
  // Whole runs
  // ---------------------------------------------------------------------------

  ghost predicate Run<K, V>(states: seq<State<K, V>>, ops: seq<Op<K, V>>, replies: seq<Reply<V>>) {
    && |states| == |ops| + 1 && |replies| == |ops|
    && forall i :: 0 <= i < |ops| ==> Step(states[i], ops[i], states[i + 1], replies[i])
  }

  lemma {:induction false} RunCoherent<K, V>(states: seq<State<K, V>>, ops: seq<Op<K, V>>, replies: seq<Reply<V>>, i: nat)
    requires Run(states, ops, replies) && Coherent(states[0]) && i <= |ops|
    ensures Coherent(states[i])
  {
    if i > 0 {
      RunCoherent(states, ops, replies, i - 1);
      StepCoherent(states[i - 1], ops[i - 1], states[i], replies[i - 1]);
    }
  }

  /** Main result: every run from an empty cache is, seen from outside, a run of the storage itself. */
  lemma RunRefines<K, V>(states: seq<State<K, V>>, ops: seq<Op<K, V>>, replies: seq<Reply<V>>)
    requires Run(states, ops, replies) && states[0].cache == map[]
    ensures forall i :: 0 <= i < |ops| ==> BareStep(states[i].db, ops[i], states[i + 1].db, replies[i])
    ensures forall i :: 0 <= i <= |ops| ==> Coherent(states[i])
  {
    forall i | 0 <= i <= |ops| ensures Coherent(states[i]) { RunCoherent(states, ops, replies, i); }
    forall i | 0 <= i < |ops| ensures BareStep(states[i].db, ops[i], states[i + 1].db, replies[i]) {
      StepRefines(states[i], ops[i], states[i + 1], replies[i]);
    }
  }

  // ---------------------------------------------------------------------------
  // The class
  // ---------------------------------------------------------------------------

  /** What becomes of a write of the storage. */
  datatype Fate<K> = Works | Fails(written: set<K>)

  /** The storage after a write. */
  function Written<K, V>(db: map<K, V>, updates: map<K, V>, fate: Fate<K>): map<K, V> {
    if fate.Works? then db + updates else db + (map k | k in updates && k in fate.written :: updates[k])
  }

  lemma WrittenPartial<K, V>(db: map<K, V>, updates: map<K, V>, fate: Fate<K>)
    ensures Partial(db, updates, Written(db, updates, fate))
  {}

  lemma WrittenOne<K, V>(db: map<K, V>, key: K, value: V, fate: Fate<K>)
    ensures Partial(db, map[key := value], Written(db, map[key := value], fate))
    ensures fate.Works? ==> Written(db, map[key := value], fate) == db[key := value]
  {
    WrittenPartial(db, map[key := value], fate);
  }

  class CachedStorage<K(==), V(==)> {
    const maxSize: nat
    /** The storage below. */
    var db: map<K, V>
    var cache: map<K, V>

    function View(): State<K, V>
      reads this
    {
      State(db, cache)
    }

    ghost predicate Valid()
      reads this
    {
      Coherent(View()) && |cache| <= maxSize && maxSize > 0
    }

    constructor (storage: map<K, V>, size: nat)
      requires size > 0
      ensures Valid() && db == storage && cache == map[] && maxSize == size
    {
      db, cache, maxSize := storage, map[], size;
    }

    /** An assignment to the bounded cache, which first evicts entries until there is room. */
    method Put(key: K, value: V)
      requires |cache| <= maxSize && maxSize > 0
      modifies this`cache
      ensures Kept(cache, old(cache)[key := value]) && |cache| <= maxSize
      ensures key in cache && cache[key] == value
    {
      if key !in cache {
        while |cache| + 1 > maxSize
          invariant Kept(cache, old(cache)) && |cache| <= maxSize && key !in cache
        {
          NonEmpty(cache);
          var victim :| victim in cache;
          RemoveOne(cache, victim);
          cache := cache - {victim};
        }
      }
      PutOne(cache, key, value);
      cache := cache[key := value];
    }

    method SetValue(key: K, value: V, fate: Fate<K>) returns (r: Reply<V>)
      requires Valid()
      modifies this
      ensures Valid() && Step(old(View()), SetOp(key, value), View(), r)
      ensures r == Raised <==> fate.Fails? && Lookup(old(cache), key) != Some(value)
      ensures if r == Raised then cache == old(cache) - {key} else Lookup(cache, key) == Some(value)
      ensures db == if Lookup(old(cache), key) == Some(value) then old(db)
                    else Written(old(db), map[key := value], fate)
    {
      ghost var s := View();
      if Lookup(cache, key) == Some(value) { return Ok; }
      WrittenOne(db, key, value, fate);
      db := Written(db, map[key := value], fate);
      if fate.Fails? {
        KeysShrink(cache, {key});
        cache := cache - {key};
        r := Raised;
      } else {
        Put(key, value);
        r := Ok;
      }
      StepCoherent(s, SetOp(key, value), View(), r);
    }

    method SetnxValue(key: K, value: V, fate: Fate<K>) returns (r: Reply<V>)
      requires Valid()
      modifies this
      ensures Valid() && Step(old(View()), SetnxOp(key, value), View(), r)
      ensures r == if fate.Fails? then Raised else Wrote(key !in old(db))
      ensures if r == Wrote(true) then Lookup(cache, key) == Some(value) else cache == old(cache)
      ensures db == if key in old(db) then old(db) else Written(old(db), map[key := value], fate)
    {
      ghost var s := View();
      if key in db {
        r := if fate.Fails? then Raised else Wrote(false);
      } else {
        WrittenOne(db, key, value, fate);
        db := Written(db, map[key := value], fate);
        if fate.Fails? {
          r := Raised;
        } else {
          Put(key, value);
          r := Wrote(true);
        }
      }
      StepCoherent(s, SetnxOp(key, value), View(), r);
    }

    method GetValue(key: K) returns (r: Reply<V>)
      requires Valid()
      modifies this`cache
      ensures Valid() && Step(old(View()), GetOp(key), View(), r)
      ensures r == Found(Lookup(db, key)) && Lookup(cache, key) == Lookup(db, key)
    {
      ghost var s := View();
      if key in cache { return Found(Some(cache[key])); }
      var value := Lookup(db, key);
      if value.None? { return Found(None); }
      Put(key, value.value);
      r := Found(value);
      StepCoherent(s, GetOp(key), View(), r);
    }

    /** Sets every entry of `entries` in the cache, in some order. */
    method Update(entries: map<K, V>)
      requires |cache| <= maxSize && maxSize > 0
      modifies this`cache
      ensures Kept(cache, old(cache) + entries) && |cache| <= maxSize
    {
      var keys := entries.Keys;
      while keys != {}
        invariant |cache| <= maxSize && keys <= entries.Keys
        invariant forall k :: k in cache ==>
          if k in entries && k !in keys then cache[k] == entries[k] else k in old(cache) && cache[k] == old(cache)[k]
        decreases |keys|
      {
        SomeKey(keys);
        var key :| key in keys;
        keys := keys - {key};
        Put(key, entries[key]);
      }
    }

    /** Drops the given keys from the cache. */
    method PopAll(dropped: set<K>)
      modifies this`cache
      ensures cache == old(cache) - dropped
    {
      var keys := dropped;
      while keys != {}
        invariant keys <= dropped && cache == old(cache) - (dropped - keys)
        decreases |keys|
      {
        SomeKey(keys);
        var key :| key in keys;
        keys := keys - {key};
        cache := cache - {key};
      }
      assert dropped - {} == dropped;
    }

    method Mset(updates: map<K, V>, fate: Fate<K>) returns (r: Reply<V>)
      requires Valid()
      modifies this
      ensures Valid() && Step(old(View()), MsetOp(updates), View(), r)
      ensures r == if fate.Fails? then Raised else Ok
      ensures db == Written(old(db), NewUpdates(old(cache), updates), fate)
      ensures r == Raised ==> cache == old(cache) - NewUpdates(old(cache), updates).Keys
    {
      ghost var s := View();
      var newUpdates := NewUpdates(cache, updates);
      WrittenPartial(db, newUpdates, fate);
      db := Written(db, newUpdates, fate);
      if fate.Fails? {
        PopAll(newUpdates.Keys);
        KeysShrink(s.cache, newUpdates.Keys);
        r := Raised;
        MsetRaised(s, updates, View());
      } else {
        Update(newUpdates);
        r := Ok;
        MsetOk(s, updates, View());
      }
      StepCoherent(s, MsetOp(updates), View(), r);
    }

    /** The cached values, and the places without one. */
    method ReadCache(keys: seq<K>) returns (values: seq<Option<V>>, missing: seq<nat>)
      ensures |values| == |keys| && forall l :: 0 <= l < |keys| ==> values[l] == Lookup(cache, keys[l])
      ensures forall j :: 0 <= j < |missing| ==> missing[j] < |keys| && keys[missing[j]] !in cache
      ensures forall l :: 0 <= l < |keys| && keys[l] !in cache ==> l in missing
    {
      values, missing := [], [];
      for i := 0 to |keys|
        invariant |values| == i && forall l :: 0 <= l < i ==> values[l] == Lookup(cache, keys[l])
        invariant forall j :: 0 <= j < |missing| ==> missing[j] < i && keys[missing[j]] !in cache
        invariant forall l :: 0 <= l < i && keys[l] !in cache ==> l in missing
      {
        values := values + [Lookup(cache, keys[i])];
        if keys[i] !in cache { missing := missing + [i]; }
      }
    }

    /** Fills the fetched values in at their places. */
    method FillIn(keys: seq<K>, cached: seq<Option<V>>, missing: seq<nat>) returns (values: seq<Option<V>>)
      requires |cached| == |keys| && forall j :: 0 <= j < |missing| ==> missing[j] < |keys|
      ensures |values| == |keys|
      ensures forall l :: 0 <= l < |keys| ==> values[l] == if l in missing then Lookup(db, keys[l]) else cached[l]
    {
      values := cached;
      for j := 0 to |missing|
        invariant |values| == |keys|
        invariant forall l :: 0 <= l < |keys| ==> values[l] == if l in missing[..j] then Lookup(db, keys[l]) else cached[l]
      {
        assert missing[..j + 1] == missing[..j] + [missing[j]];
        values := values[missing[j] := Lookup(db, keys[missing[j]])];
      }
      assert missing[..|missing|] == missing;
    }

    method Mget(keys: seq<K>) returns (r: Reply<V>)
      requires Valid()
      modifies this`cache
      ensures Valid() && Step(old(View()), MgetOp(keys), View(), r)
      ensures r == Many(LookupAll(db, keys))
    {
      ghost var s := View();
      var cached, missing := ReadCache(keys);
      var values := FillIn(keys, cached, missing);
      assert values == Combined(s, keys) by {
        forall i | 0 <= i < |keys| ensures values[i] == Combined(s, keys)[i] {
          CombinedAt(s, keys, i);
          if keys[i] in cache { assert i !in missing; }
        }
      }
      for j := 0 to |missing|
        invariant Kept(cache, s.cache + FetchedEntries(db, MissingKeys(s.cache, keys))) && |cache| <= maxSize
      {
        var fetched := Lookup(db, keys[missing[j]]);
        if fetched.Some? {
          assert keys[missing[j]] in MissingKeys(s.cache, keys);
          Put(keys[missing[j]], fetched.value);
        }
      }
      r := Many(values);
      StepCoherent(s, MgetOp(keys), View(), r);
      CombinedIs(s, keys);
    }

    method DelValue(key: K) returns (r: Reply<V>)
      requires Valid()
      ensures Step(View(), DelOp(key), View(), r)
    {
      return Raised;
    }
  }

  lemma NonEmpty<K, V>(m: map<K, V>)
    ensures |m| == 0 || exists k :: k in m
  {
    if forall k :: k !in m { assert m == map[]; }
  }

  lemma MsetOk<K, V>(s: State<K, V>, u: map<K, V>, s': State<K, V>)
    requires s'.db == s.db + NewUpdates(s.cache, u) && Kept(s'.cache, s.cache + NewUpdates(s.cache, u))
    ensures Step(s, MsetOp(u), s', Ok)
  {}

  lemma MsetRaised<K, V>(s: State<K, V>, u: map<K, V>, s': State<K, V>)
    requires Partial(s.db, NewUpdates(s.cache, u), s'.db) && s'.cache == s.cache - NewUpdates(s.cache, u).Keys
    ensures Step(s, MsetOp(u), s', Raised)
  {}

  lemma SomeKey<K>(s: set<K>)
    ensures s == {} || exists k :: k in s
  {
    if forall k :: k !in s { assert s == {}; }
  }

  lemma RemoveOne<K, V>(m: map<K, V>, key: K)
    requires key in m
    ensures |m - {key}| == |m| - 1
  {
    var rest := m - {key};
    assert rest.Keys == m.Keys - {key};
    assert |rest.Keys| == |rest| && |m.Keys| == |m|;
  }

  lemma PutOne<K, V>(m: map<K, V>, key: K, value: V)
    ensures |m[key := value]| == if key in m then |m| else |m| + 1
  {
    var more := m[key := value];
    assert more.Keys == m.Keys + {key};
    assert |more.Keys| == |more| && |m.Keys| == |m|;
    assert key in m ==> more.Keys == m.Keys;
  }

  lemma KeysShrink<K, V>(m: map<K, V>, keys: set<K>)
    ensures |m - keys| <= |m|
  {
    var rest := m - keys;
    assert rest.Keys == m.Keys - keys;
    assert |rest.Keys| == |rest| && |m.Keys| == |m|;
    assert |m.Keys| == |m.Keys - keys| + |m.Keys * keys|;
  }
}
