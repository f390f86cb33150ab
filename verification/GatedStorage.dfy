/**
 Storage that keeps small values in a primary storage and puts large ones, behind a reference, in a
 secondary storage (src/starkware/storage/gated_storage.py).
 */
module GatedStorage {
  import opened Common

  type Bytes = seq<bv8>

  const RECORD_LENGTH_BUFFER := 10240

  /** `header` is MAGIC_HEADER. */
  datatype Config = Config(header: Bytes, limit: int)

  /** The contents of storage0 and storage1. */
  datatype Stores = Stores(primary: map<Bytes, Bytes>, secondary: map<Bytes, Bytes>)

  /** is_forced_large_storage, which is also the test for a reference. */
  predicate HasHeader(c: Config, value: Bytes) {
    |c.header| <= |value| && value[..|c.header|] == c.header
  }

  predicate ShouldCompress(c: Config, key: Bytes, value: Bytes) {
    HasHeader(c, value) || |value| + |key| + RECORD_LENGTH_BUFFER > c.limit
  }

  /** The secondary key in a reference. */
  function Target(c: Config, value: Bytes): Bytes
    requires HasHeader(c, value)
  {
    value[|c.header|..]
  }

  lemma ReferenceTarget(c: Config, ukey: Bytes)
    ensures HasHeader(c, c.header + ukey) && Target(c, c.header + ukey) == ukey
  {}

  // ---------------------------------------------------------------------------
  // Operations
  // ---------------------------------------------------------------------------

  /** _compress_value: the new stores and the value for the primary storage. */
  function Compress(c: Config, st: Stores, key: Bytes, value: Bytes, ukey: Bytes): (Stores, Bytes) {
    if !ShouldCompress(c, key, value) then (st, value)
    else (st.(secondary := st.secondary[ukey := value]), c.header + ukey)
  }

  function Set(c: Config, st: Stores, key: Bytes, value: Bytes, ukey: Bytes): Stores {
    var (st', v) := Compress(c, st, key, value, ukey);
    st'.(primary := st'.primary[key := v])
  }

  /** Writes the secondary storage first, then tries the primary one. */
  function Setnx(c: Config, st: Stores, key: Bytes, value: Bytes, ukey: Bytes): (Stores, bool) {
    var (st', v) := Compress(c, st, key, value, ukey);
    if key in st'.primary then (st', false) else (st'.(primary := st'.primary[key := v]), true)
  }

  /** Dangling is get_value_or_fail failing on the secondary storage. */
  datatype Read = Missing | Value(value: Bytes) | Dangling

  function Get(c: Config, st: Stores, key: Bytes): Read {
    if key !in st.primary then Missing
    else
      var v := st.primary[key];
      if !HasHeader(c, v) then Value(v)
      else if Target(c, v) in st.secondary then Value(st.secondary[Target(c, v)])
      else Dangling
  }

  function Delete(c: Config, st: Stores, key: Bytes): Stores {
    if key !in st.primary then st
    else
      var v := st.primary[key];
      Stores(st.primary - {key}, if HasHeader(c, v) then st.secondary - {Target(c, v)} else st.secondary)
  }

  class GatedStorage {
    const c: Config
    var storage0: map<Bytes, Bytes>
    var storage1: map<Bytes, Bytes>

    function State(): Stores
      reads this
    {
      Stores(storage0, storage1)
    }

    constructor (limit: int, header: Bytes, primary: map<Bytes, Bytes>, secondary: map<Bytes, Bytes>)
      ensures c == Config(header, limit) && State() == Stores(primary, secondary)
      ensures primary == secondary == map[] ==> Sound(c, State()) && Contents(c, State()) == map[]
    {
      c := Config(header, limit);
      storage0 := primary;
      storage1 := secondary;
      new;
      EmptyIsSound(c);
    }

    method CompressValue(key: Bytes, value: Bytes, ukey: Bytes) returns (v: Bytes)
      modifies this`storage1
      ensures (State(), v) == Compress(c, old(State()), key, value, ukey)
    {
      if !ShouldCompress(c, key, value) { return value; }
      storage1 := storage1[ukey := value];
      return c.header + ukey;
    }

    method SetValue(key: Bytes, value: Bytes, ukey: Bytes)
      modifies this
      ensures State() == Set(c, old(State()), key, value, ukey)
      ensures old(Sound(c, State())) && ukey !in old(storage1) ==>
        Sound(c, State()) && Contents(c, State()) == old(Contents(c, State()))[key := value]
    {
      ghost var st := State();
      var v := CompressValue(key, value, ukey);
      storage0 := storage0[key := v];
      if Sound(c, st) && ukey !in st.secondary { SetIs(c, st, key, value, ukey); }
    }

    method SetnxValue(key: Bytes, value: Bytes, ukey: Bytes) returns (ok: bool)
      modifies this
      ensures (State(), ok) == Setnx(c, old(State()), key, value, ukey)
      ensures old(Sound(c, State())) && ukey !in old(storage1) ==>
        && Sound(c, State()) && (ok <==> key !in old(Contents(c, State())))
        && Contents(c, State()) == if ok then old(Contents(c, State()))[key := value] else old(Contents(c, State()))
    {
      ghost var st := State();
      if Sound(c, st) && ukey !in st.secondary { SetnxIs(c, st, key, value, ukey); }
      var v := CompressValue(key, value, ukey);
      if key in storage0 { return false; }
      storage0 := storage0[key := v];
      return true;
    }

    method GetValue(key: Bytes) returns (r: Read)
      ensures r == Get(c, State(), key)
      ensures Sound(c, State()) ==>
        r == if key in Contents(c, State()) then Value(Contents(c, State())[key]) else Missing
    {
      if Sound(c, State()) { GetIs(c, State(), key); }
      if key !in storage0 { return Missing; }
      var value := storage0[key];
      if HasHeader(c, value) {
        var ukey := Target(c, value);
        if ukey !in storage1 { return Dangling; }
        return Value(storage1[ukey]);
      }
      return Value(value);
    }

    method DelValue(key: Bytes)
      modifies this
      ensures State() == Delete(c, old(State()), key)
      ensures old(Sound(c, State())) ==>
        Sound(c, State()) && Contents(c, State()) == old(Contents(c, State())) - {key}
      ensures old(Sound(c, State())) ==>
        && (old(Reference(c, State(), key)) ==> old(Target(c, storage0[key])) !in storage1)
        && forall ukey :: Leftover(c, State(), ukey) <==> old(Leftover(c, State(), ukey))
    {
      if Sound(c, State()) {
        DeleteIs(c, State(), key);
        DeleteLeaves(c, State(), key);
      }
      if key !in storage0 { return; }
      var value := storage0[key];
      if HasHeader(c, value) {
        var ukey := Target(c, value);
        storage1 := storage1 - {ukey};
      }
      storage0 := storage0 - {key};
    }
  }

  // ---------------------------------------------------------------------------
  // The plain map behind the two stores
  // ---------------------------------------------------------------------------

  ghost predicate Reference(c: Config, st: Stores, key: Bytes) {
    key in st.primary && HasHeader(c, st.primary[key])
  }

  /** Every primary value with the header is a live reference, and no two share their target. */
  ghost predicate Sound(c: Config, st: Stores) {
    && (forall k {:trigger Reference(c, st, k)} :: Reference(c, st, k) ==> Target(c, st.primary[k]) in st.secondary)
    && (forall k, l {:trigger Reference(c, st, k), Reference(c, st, l)} ::
          Reference(c, st, k) && Reference(c, st, l) && k != l ==> Target(c, st.primary[k]) != Target(c, st.primary[l]))
  }

  /** A secondary value that no reference leads to. */
  ghost predicate Leftover(c: Config, st: Stores, ukey: Bytes) {
    ukey in st.secondary && forall k {:trigger Reference(c, st, k)} :: Reference(c, st, k) ==> Target(c, st.primary[k]) != ukey
  }

  ghost function Lookup(c: Config, st: Stores, key: Bytes): Bytes
    requires key in st.primary && Sound(c, st)
  {
    if Reference(c, st, key) then st.secondary[Target(c, st.primary[key])] else st.primary[key]
  }

  ghost function Contents(c: Config, st: Stores): map<Bytes, Bytes>
    requires Sound(c, st)
  {
    map k | k in st.primary :: Lookup(c, st, k)
  }

  /** The reading operations never fail, and see the plain map. */
  lemma GetIs(c: Config, st: Stores, key: Bytes)
    requires Sound(c, st)
    ensures Get(c, st, key) == if key in Contents(c, st) then Value(Contents(c, st)[key]) else Missing
  {
    assert Reference(c, st, key) || !Reference(c, st, key);
  }

  lemma SetSound(c: Config, st: Stores, key: Bytes, value: Bytes, ukey: Bytes)
    requires Sound(c, st) && ukey !in st.secondary
    ensures Sound(c, Set(c, st, key, value, ukey))
  {
    var st' := Set(c, st, key, value, ukey);
    ReferenceTarget(c, ukey);
    forall k | Reference(c, st', k) ensures Target(c, st'.primary[k]) in st'.secondary {
      assert k != key ==> Reference(c, st, k);
    }
    forall k, l | Reference(c, st', k) && Reference(c, st', l) && k != l
      ensures Target(c, st'.primary[k]) != Target(c, st'.primary[l])
    {
      assert k != key ==> Reference(c, st, k);
      assert l != key ==> Reference(c, st, l);
    }
  }

  /** set_value with a fresh secondary key sets one entry, also for values that begin with the header. */
  lemma SetIs(c: Config, st: Stores, key: Bytes, value: Bytes, ukey: Bytes)
    requires Sound(c, st) && ukey !in st.secondary
    ensures var st' := Set(c, st, key, value, ukey);
      Sound(c, st') && Contents(c, st') == Contents(c, st)[key := value]
  {
    SetSound(c, st, key, value, ukey);
    ReferenceTarget(c, ukey);
    var st' := Set(c, st, key, value, ukey);
    forall k | k in st'.primary ensures Lookup(c, st', k) == Contents(c, st)[key := value][k] {
      if k == key {
        assert Reference(c, st', key) <==> ShouldCompress(c, key, value);
      } else {
        assert Reference(c, st', k) <==> Reference(c, st, k);
      }
    }
    assert Contents(c, st') == Contents(c, st)[key := value];
  }

  lemma CompressOnly(c: Config, st: Stores, key: Bytes, value: Bytes, ukey: Bytes)
    requires Sound(c, st) && ukey !in st.secondary
    ensures var st' := Compress(c, st, key, value, ukey).0;
      Sound(c, st') && Contents(c, st') == Contents(c, st)
  {
    var st' := Compress(c, st, key, value, ukey).0;
    forall k ensures Reference(c, st', k) <==> Reference(c, st, k) {}
    forall k | k in st'.primary ensures Lookup(c, st', k) == Lookup(c, st, k) {
      assert Reference(c, st, k) || !Reference(c, st, k);
    }
  }

  /** setnx_value with a fresh secondary key: a refused write leaves the map unchanged. */
  lemma SetnxIs(c: Config, st: Stores, key: Bytes, value: Bytes, ukey: Bytes)
    requires Sound(c, st) && ukey !in st.secondary
    ensures var (st', ok) := Setnx(c, st, key, value, ukey);
      && Sound(c, st') && (ok <==> key !in Contents(c, st))
      && Contents(c, st') == if ok then Contents(c, st)[key := value] else Contents(c, st)
  {
    if key in st.primary {
      CompressOnly(c, st, key, value, ukey);
    } else {
      SetIs(c, st, key, value, ukey);
    }
  }

  /** A delete takes the large value out of the secondary storage and leaves no new leftover. */
  lemma DeleteLeaves(c: Config, st: Stores, key: Bytes)
    requires Sound(c, st)
    ensures var st' := Delete(c, st, key);
      && (Reference(c, st, key) ==> Target(c, st.primary[key]) !in st'.secondary)
      && forall ukey :: Leftover(c, st', ukey) <==> Leftover(c, st, ukey)
  {
    var st' := Delete(c, st, key);
    forall k ensures Reference(c, st', k) <==> Reference(c, st, k) && k != key {}
    forall ukey ensures Leftover(c, st', ukey) <==> Leftover(c, st, ukey) {
      if Leftover(c, st', ukey) {
        forall k | Reference(c, st, k) ensures Target(c, st.primary[k]) != ukey {
          assert k != key ==> Reference(c, st', k);
        }
      }
      if Leftover(c, st, ukey) {
        assert Reference(c, st, key) ==> Target(c, st.primary[key]) != ukey;
        forall k | Reference(c, st', k) ensures Target(c, st'.primary[k]) != ukey { assert Reference(c, st, k); }
      }
    }
  }

  lemma DeleteIs(c: Config, st: Stores, key: Bytes)
    requires Sound(c, st)
    ensures var st' := Delete(c, st, key);
      Sound(c, st') && Contents(c, st') == Contents(c, st) - {key}
  {
    var st' := Delete(c, st, key);
    forall k ensures Reference(c, st', k) <==> Reference(c, st, k) && k != key {}
    if Reference(c, st, key) {
      forall k | Reference(c, st', k) ensures Target(c, st'.primary[k]) in st'.secondary {
        assert Reference(c, st, k);
      }
    }
    forall k | k in st'.primary ensures Lookup(c, st', k) == Lookup(c, st, k) {
      assert Reference(c, st', k) || !Reference(c, st', k);
    }
    assert Contents(c, st') == Contents(c, st) - {key};
  }

  // ---------------------------------------------------------------------------
  // Whole runs
  // ---------------------------------------------------------------------------

  datatype Op = SetOp(key: Bytes, value: Bytes, ukey: Bytes)
              | SetnxOp(key: Bytes, value: Bytes, ukey: Bytes)
              | GetOp(key: Bytes)
              | DelOp(key: Bytes)

  datatype Reply = Done | Wrote(ok: bool) | Got(read: Read)

  function Apply(c: Config, st: Stores, op: Op): (Stores, Reply) {
    match op
    case SetOp(k, v, u) => (Set(c, st, k, v, u), Done)
    case SetnxOp(k, v, u) => (var (st', ok) := Setnx(c, st, k, v, u); (st', Wrote(ok)))
    case GetOp(k) => (st, Got(Get(c, st, k)))
    case DelOp(k) => (Delete(c, st, k), Done)
  }

  /** The same operation on a plain map. */
  function ApplyPlain(m: map<Bytes, Bytes>, op: Op): (map<Bytes, Bytes>, Reply) {
    match op
    case SetOp(k, v, _) => (m[k := v], Done)
    case SetnxOp(k, v, _) => if k in m then (m, Wrote(false)) else (m[k := v], Wrote(true))
    case GetOp(k) => (m, Got(if k in m then Value(m[k]) else Missing))
    case DelOp(k) => (m - {k}, Done)
  }

  function Replies(c: Config, st: Stores, ops: seq<Op>): seq<Reply>
    decreases |ops|
  {
    if ops == [] then []
    else
      var (st', r) := Apply(c, st, ops[0]);
      [r] + Replies(c, st', ops[1..])
  }

  function PlainReplies(m: map<Bytes, Bytes>, ops: seq<Op>): seq<Reply>
    decreases |ops|
  {
    if ops == [] then []
    else
      var (m', r) := ApplyPlain(m, ops[0]);
      [r] + PlainReplies(m', ops[1..])
  }

  ghost predicate FreshOp(st: Stores, op: Op) {
    (op.SetOp? || op.SetnxOp?) ==> op.ukey !in st.secondary
  }

  /** Each generated secondary key is not in use when it is generated. */
  ghost predicate FreshRun(c: Config, st: Stores, ops: seq<Op>)
    decreases |ops|
  {
    ops != [] ==> FreshOp(st, ops[0]) && FreshRun(c, Apply(c, st, ops[0]).0, ops[1..])
  }

  lemma ApplyRefines(c: Config, st: Stores, op: Op)
    requires Sound(c, st) && FreshOp(st, op)
    ensures var (st', r) := Apply(c, st, op);
      Sound(c, st') && (Contents(c, st'), r) == ApplyPlain(Contents(c, st), op)
  {
    match op
    case SetOp(k, v, u) => SetIs(c, st, k, v, u);
    case SetnxOp(k, v, u) => SetnxIs(c, st, k, v, u);
    case GetOp(k) => GetIs(c, st, k);
    case DelOp(k) => DeleteIs(c, st, k);
  }

  /** Main result: every run with fresh secondary keys answers as a plain map does. */
  lemma {:induction false} RunRefines(c: Config, st: Stores, ops: seq<Op>)
    requires Sound(c, st) && FreshRun(c, st, ops)
    ensures Replies(c, st, ops) == PlainReplies(Contents(c, st), ops)
    decreases |ops|
  {
    if ops != [] {
      ApplyRefines(c, st, ops[0]);
      RunRefines(c, Apply(c, st, ops[0]).0, ops[1..]);
    }
  }

  /** Exactly the values that begin with the header, or whose record would be over the limit, are behind a
      reference. */
  ghost predicate Placed(c: Config, st: Stores)
    requires Sound(c, st)
  {
    forall k {:trigger Reference(c, st, k)} :: k in st.primary ==> PlacedAt(c, st, k)
  }

  ghost predicate PlacedAt(c: Config, st: Stores, k: Bytes)
    requires Sound(c, st) && k in st.primary
  {
    var v := Lookup(c, st, k);
    Reference(c, st, k) <==> HasHeader(c, v) || |k| + |v| > c.limit - RECORD_LENGTH_BUFFER
  }

  /** The entry of another key is as before. */
  lemma OtherPlaced(c: Config, st: Stores, st': Stores, k: Bytes)
    requires Sound(c, st) && Sound(c, st') && k in st.primary && k in st'.primary && st.primary[k] == st'.primary[k]
    requires Contents(c, st)[k] == Contents(c, st')[k] && PlacedAt(c, st, k)
    ensures PlacedAt(c, st', k)
  {
    assert Reference(c, st, k) <==> Reference(c, st', k);
  }

  lemma SetPlaced(c: Config, st: Stores, key: Bytes, value: Bytes, ukey: Bytes)
    requires Sound(c, st) && Placed(c, st) && ukey !in st.secondary
    ensures var st' := Set(c, st, key, value, ukey); Sound(c, st') && Placed(c, st')
  {
    SetIs(c, st, key, value, ukey);
    ReferenceTarget(c, ukey);
    var st' := Set(c, st, key, value, ukey);
    forall k | k in st'.primary ensures PlacedAt(c, st', k) {
      if k != key {
        assert Reference(c, st, k) || !Reference(c, st, k);
        OtherPlaced(c, st, st', k);
      }
    }
  }

  lemma ApplyPlaced(c: Config, st: Stores, op: Op)
    requires Sound(c, st) && Placed(c, st) && FreshOp(st, op)
    ensures var st' := Apply(c, st, op).0; Sound(c, st') && Placed(c, st')
  {
    ApplyRefines(c, st, op);
    var st' := Apply(c, st, op).0;
    if op.SetOp? || (op.SetnxOp? && op.key !in st.primary) {
      SetPlaced(c, st, op.key, op.value, op.ukey);
    } else {
      forall k | k in st'.primary ensures PlacedAt(c, st', k) {
        assert Reference(c, st, k) || !Reference(c, st, k);
        OtherPlaced(c, st, st', k);
      }
    }
  }

  function After(c: Config, st: Stores, ops: seq<Op>): Stores
    decreases |ops|
  {
    if ops == [] then st else After(c, Apply(c, st, ops[0]).0, ops[1..])
  }

  /** So it stays over every run with fresh secondary keys. */
  lemma {:induction false} RunPlaced(c: Config, st: Stores, ops: seq<Op>)
    requires Sound(c, st) && Placed(c, st) && FreshRun(c, st, ops)
    ensures Sound(c, After(c, st, ops)) && Placed(c, After(c, st, ops))
    decreases |ops|
  {
    if ops != [] {
      ApplyPlaced(c, st, ops[0]);
      RunPlaced(c, Apply(c, st, ops[0]).0, ops[1..]);
    }
  }

  lemma EmptyIsSound(c: Config)
    ensures var st := Stores(map[], map[]); Sound(c, st) && Contents(c, st) == map[] && Placed(c, st)
  {}

  // ---------------------------------------------------------------------------
  // DeterministicGatedStorage
  // ---------------------------------------------------------------------------

  /** The secondary key of a primary key; `prefix` is "type=det-gated/". */
  function UniqueKey(prefix: Bytes, key: Bytes): Bytes {
    prefix + key
  }

  /** References point to the secondary key of their own key, and are what a compressed value leaves. */
  ghost predicate Deterministic(c: Config, prefix: Bytes, st: Stores) {
    forall k {:trigger Reference(c, st, k)} :: k in st.primary ==>
      if Reference(c, st, k) then
        && Target(c, st.primary[k]) == UniqueKey(prefix, k)
        && UniqueKey(prefix, k) in st.secondary
        && ShouldCompress(c, k, st.secondary[UniqueKey(prefix, k)])
      else !ShouldCompress(c, k, st.primary[k])
  }

  lemma UniqueKeyInjective(prefix: Bytes, k: Bytes, l: Bytes)
    requires UniqueKey(prefix, k) == UniqueKey(prefix, l)
    ensures k == l
  {
    assert (prefix + k)[|prefix|..] == k && (prefix + l)[|prefix|..] == l;
  }

  lemma DeterministicSound(c: Config, prefix: Bytes, st: Stores)
    requires Deterministic(c, prefix, st)
    ensures Sound(c, st)
  {
    forall k, l | Reference(c, st, k) && Reference(c, st, l) && k != l
      ensures Target(c, st.primary[k]) != Target(c, st.primary[l])
    {
      if UniqueKey(prefix, k) == UniqueKey(prefix, l) { UniqueKeyInjective(prefix, k, l); }
    }
  }

  /** What a refused setnx_value overwrites behind the reference. */
  ghost predicate Clobbers(c: Config, m: map<Bytes, Bytes>, key: Bytes, value: Bytes) {
    key in m && ShouldCompress(c, key, m[key]) && ShouldCompress(c, key, value) && m[key] != value
  }

  lemma CompressDeterministic(c: Config, prefix: Bytes, st: Stores, key: Bytes, value: Bytes)
    requires Deterministic(c, prefix, st)
    ensures Deterministic(c, prefix, Compress(c, st, key, value, UniqueKey(prefix, key)).0)
  {
    var st' := Compress(c, st, key, value, UniqueKey(prefix, key)).0;
    forall k | k in st'.primary
      ensures if Reference(c, st', k) then
          && Target(c, st'.primary[k]) == UniqueKey(prefix, k)
          && UniqueKey(prefix, k) in st'.secondary
          && ShouldCompress(c, k, st'.secondary[UniqueKey(prefix, k)])
        else !ShouldCompress(c, k, st'.primary[k])
    {
      assert Reference(c, st', k) <==> Reference(c, st, k);
      if k != key && UniqueKey(prefix, k) == UniqueKey(prefix, key) { UniqueKeyInjective(prefix, k, key); }
    }
  }

  lemma WriteDeterministic(c: Config, prefix: Bytes, st: Stores, key: Bytes, value: Bytes)
    requires Deterministic(c, prefix, st)
    ensures Deterministic(c, prefix, Set(c, st, key, value, UniqueKey(prefix, key)))
  {
    CompressDeterministic(c, prefix, st, key, value);
    var mid := Compress(c, st, key, value, UniqueKey(prefix, key)).0;
    var st' := Set(c, st, key, value, UniqueKey(prefix, key));
    ReferenceTarget(c, UniqueKey(prefix, key));
    forall k | k in st'.primary
      ensures if Reference(c, st', k) then
          && Target(c, st'.primary[k]) == UniqueKey(prefix, k)
          && UniqueKey(prefix, k) in st'.secondary
          && ShouldCompress(c, k, st'.secondary[UniqueKey(prefix, k)])
        else !ShouldCompress(c, k, st'.primary[k])
    {
      if k == key {
        assert Reference(c, st', key) <==> ShouldCompress(c, key, value);
      } else {
        assert Reference(c, st', k) <==> Reference(c, mid, k);
      }
    }
  }

  /** set_value is right for the deterministic keys too. */
  lemma DeterministicSetIs(c: Config, prefix: Bytes, st: Stores, key: Bytes, value: Bytes)
    requires Deterministic(c, prefix, st)
    ensures Sound(c, st)
    ensures var st' := Set(c, st, key, value, UniqueKey(prefix, key));
      Deterministic(c, prefix, st') && Sound(c, st') && Contents(c, st') == Contents(c, st)[key := value]
  {
    var u := UniqueKey(prefix, key);
    var st' := Set(c, st, key, value, u);
    DeterministicSound(c, prefix, st);
    WriteDeterministic(c, prefix, st, key, value);
    DeterministicSound(c, prefix, st');
    ReferenceTarget(c, u);
    forall k | k in st'.primary ensures Lookup(c, st', k) == Contents(c, st)[key := value][k] {
      if k == key {
        assert Reference(c, st', key) <==> ShouldCompress(c, key, value);
      } else {
        assert Reference(c, st', k) <==> Reference(c, st, k);
        if UniqueKey(prefix, k) == u { UniqueKeyInjective(prefix, k, key); }
      }
    }
    assert Contents(c, st') == Contents(c, st)[key := value];
  }

  /** A refused setnx_value writes the new value over the old one exactly when both are compressed. */
  lemma DeterministicRefusedIs(c: Config, prefix: Bytes, st: Stores, key: Bytes, value: Bytes)
    requires Deterministic(c, prefix, st) && key in st.primary
    ensures Sound(c, st)
    ensures var st' := Compress(c, st, key, value, UniqueKey(prefix, key)).0;
      && Deterministic(c, prefix, st') && Sound(c, st')
      && Contents(c, st') == if Clobbers(c, Contents(c, st), key, value) then Contents(c, st)[key := value] else Contents(c, st)
  {
    var u := UniqueKey(prefix, key);
    var st' := Compress(c, st, key, value, u).0;
    DeterministicSound(c, prefix, st);
    CompressDeterministic(c, prefix, st, key, value);
    DeterministicSound(c, prefix, st');
    var m := Contents(c, st);
    var goal := if Clobbers(c, m, key, value) then m[key := value] else m;
    forall k | k in st'.primary ensures Lookup(c, st', k) == goal[k] {
      assert Reference(c, st', k) <==> Reference(c, st, k);
      if k != key && UniqueKey(prefix, k) == u { UniqueKeyInjective(prefix, k, key); }
    }
    assert Contents(c, st') == goal;
  }

  /** Main result: when setnx_value with deterministic keys behaves as on a plain map. */
  lemma DeterministicSetnxIs(c: Config, prefix: Bytes, st: Stores, key: Bytes, value: Bytes)
    requires Deterministic(c, prefix, st)
    ensures Sound(c, st)
    ensures var (st', ok) := Setnx(c, st, key, value, UniqueKey(prefix, key));
      && Deterministic(c, prefix, st') && Sound(c, st')
      && (((Contents(c, st'), Wrote(ok)) == ApplyPlain(Contents(c, st), SetnxOp(key, value, UniqueKey(prefix, key))))
          <==> !Clobbers(c, Contents(c, st), key, value))
  {
    DeterministicSound(c, prefix, st);
    if key in st.primary {
      DeterministicRefusedIs(c, prefix, st, key, value);
    } else {
      DeterministicSetIs(c, prefix, st, key, value);
    }
  }

  /** A concrete failure: two values that begin with the header, written under one key. */
  lemma DeterministicSetnxFails(c: Config, prefix: Bytes, key: Bytes)
    ensures var u := UniqueKey(prefix, key);
      var (one, two) := (c.header + [1], c.header + [2]);
      var st := Set(c, Stores(map[], map[]), key, one, u);
      var (st', ok) := Setnx(c, st, key, two, u);
      !ok && Get(c, st, key) == Value(one) && Get(c, st', key) == Value(two)
  {
    var u := UniqueKey(prefix, key);
    ReferenceTarget(c, u);
    ReferenceTarget(c, [1]);
    ReferenceTarget(c, [2]);
  }

  lemma DeterministicDelete(c: Config, prefix: Bytes, st: Stores, key: Bytes)
    requires Deterministic(c, prefix, st)
    ensures Deterministic(c, prefix, Delete(c, st, key))
  {
    var st' := Delete(c, st, key);
    assert Reference(c, st, key) || !Reference(c, st, key);
    forall k | k in st'.primary
      ensures if Reference(c, st', k) then
          && Target(c, st'.primary[k]) == UniqueKey(prefix, k)
          && UniqueKey(prefix, k) in st'.secondary
          && ShouldCompress(c, k, st'.secondary[UniqueKey(prefix, k)])
        else !ShouldCompress(c, k, st'.primary[k])
    {
      assert Reference(c, st', k) <==> Reference(c, st, k);
      if UniqueKey(prefix, k) == UniqueKey(prefix, key) { UniqueKeyInjective(prefix, k, key); }
    }
  }

  /** The operations use the deterministic keys, and no refused setnx_value of the run clobbers. */
  ghost predicate CleanRun(c: Config, prefix: Bytes, m: map<Bytes, Bytes>, ops: seq<Op>)
    decreases |ops|
  {
    ops != [] ==>
      && (ops[0].SetOp? || ops[0].SetnxOp? ==> ops[0].ukey == UniqueKey(prefix, ops[0].key))
      && (ops[0].SetnxOp? ==> !Clobbers(c, m, ops[0].key, ops[0].value))
      && CleanRun(c, prefix, ApplyPlain(m, ops[0]).0, ops[1..])
  }

  /** A run of the deterministic storage without such a write answers as a plain map does. */
  lemma {:induction false} DeterministicRunRefines(c: Config, prefix: Bytes, st: Stores, ops: seq<Op>)
    requires Deterministic(c, prefix, st) && Sound(c, st) && CleanRun(c, prefix, Contents(c, st), ops)
    ensures Replies(c, st, ops) == PlainReplies(Contents(c, st), ops)
    decreases |ops|
  {
    if ops != [] {
      var st' := Apply(c, st, ops[0]).0;
      match ops[0] {
        case SetOp(k, v, u) => DeterministicSetIs(c, prefix, st, k, v);
        case SetnxOp(k, v, u) => DeterministicSetnxIs(c, prefix, st, k, v);
        case GetOp(k) => GetIs(c, st, k);
        case DelOp(k) => DeleteIs(c, st, k); DeterministicDelete(c, prefix, st, k);
      }
      DeterministicRunRefines(c, prefix, st', ops[1..]);
    }
  }
}
