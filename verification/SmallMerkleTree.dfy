/**
 The sparse Merkle tree that keeps only the nodes above modified leaves
 (src/starkware/cairo/common/small_merkle_tree.py).

 Nodes are numbered as in the source: the root is 1 and the children of n are 2n and 2n + 1, so that
 leaf i is node 2^height + i. Layer t is t steps above the leaves.
 */
module SmallMerkleTree {
  import opened Common

  datatype Config = Config(H: (int, int) -> int, height: nat, defaultLeaf: int)

  // ---------------------------------------------------------------------------
  // The full tree
  // ---------------------------------------------------------------------------

  function Offset(c: Config): nat {
    Pow2(c.height)
  }

  /** The node `n`, `t` layers above the leaves, of the full tree over the leaves `L`. */
  ghost function NodeHash(c: Config, L: map<int, int>, t: nat, n: int): int {
    if t == 0 then (if n - Offset(c) in L then L[n - Offset(c)] else c.defaultLeaf)
    else c.H(NodeHash(c, L, t - 1, 2 * n), NodeHash(c, L, t - 1, 2 * n + 1))
  }

  ghost function TreeHash(c: Config, L: map<int, int>): int {
    NodeHash(c, L, c.height, 1)
  }

  /** The root of an empty tree of height `t`. */
  function DefaultHash(c: Config, t: nat): int {
    if t == 0 then c.defaultLeaf else c.H(DefaultHash(c, t - 1), DefaultHash(c, t - 1))
  }

  /** No leaf below the node was ever set. */
  ghost predicate Absent(c: Config, L: map<int, int>, t: nat, n: int) {
    if t == 0 then n - Offset(c) !in L
    else Absent(c, L, t - 1, 2 * n) && Absent(c, L, t - 1, 2 * n + 1)
  }

  lemma {:induction false} AbsentHash(c: Config, L: map<int, int>, t: nat, n: int)
    requires Absent(c, L, t, n)
    ensures NodeHash(c, L, t, n) == DefaultHash(c, t)
  {
    if t > 0 {
      AbsentHash(c, L, t - 1, 2 * n);
      AbsentHash(c, L, t - 1, 2 * n + 1);
    }
  }

  ghost predicate SameLeaf(L: map<int, int>, M: map<int, int>, i: int) {
    (i in L <==> i in M) && (i in L ==> L[i] == M[i])
  }

  ghost predicate SameBelow(c: Config, L: map<int, int>, M: map<int, int>, t: nat, n: int) {
    if t == 0 then SameLeaf(L, M, n - Offset(c))
    else SameBelow(c, L, M, t - 1, 2 * n) && SameBelow(c, L, M, t - 1, 2 * n + 1)
  }

  lemma {:induction false} SameBelowHash(c: Config, L: map<int, int>, M: map<int, int>, t: nat, n: int)
    requires SameBelow(c, L, M, t, n)
    ensures NodeHash(c, L, t, n) == NodeHash(c, M, t, n)
    ensures Absent(c, L, t, n) <==> Absent(c, M, t, n)
  {
    if t > 0 {
      SameBelowHash(c, L, M, t - 1, 2 * n);
      SameBelowHash(c, L, M, t - 1, 2 * n + 1);
    }
  }

  // ---------------------------------------------------------------------------
  // Layers
  // ---------------------------------------------------------------------------

  predicate InLayer(c: Config, t: nat, n: int) {
    t <= c.height && Pow2(c.height - t) <= n < 2 * Pow2(c.height - t)
  }

  lemma LayerUnique(c: Config, s: nat, t: nat, n: int)
    requires InLayer(c, s, n) && InLayer(c, t, n)
    ensures s == t
  {
    if s < t { Pow2Monotone(c.height - t + 1, c.height - s); }
    if t < s { Pow2Monotone(c.height - s + 1, c.height - t); }
  }

  lemma LayerChildren(c: Config, t: nat, n: int)
    requires t > 0 && InLayer(c, t, n)
    ensures InLayer(c, t - 1, 2 * n) && InLayer(c, t - 1, 2 * n + 1)
  {
    assert Pow2(c.height - (t - 1)) == 2 * Pow2(c.height - t);
  }

  lemma LayerParent(c: Config, t: nat, n: int)
    requires t < c.height && InLayer(c, t, n)
    ensures InLayer(c, t + 1, n / 2)
  {
    assert Pow2(c.height - t) == 2 * Pow2(c.height - (t + 1));
  }

  lemma InnerNode(c: Config, t: nat, n: int)
    requires InLayer(c, t, n)
    ensures n >= 1 && (n < Offset(c) <==> t > 0)
  {
    if t > 0 { Pow2Monotone(c.height - t + 1, c.height); }
  }

  // ---------------------------------------------------------------------------
  // The stored nodes
  // ---------------------------------------------------------------------------

  /** A stored node has the hash of its full subtree; a node that is not stored has nothing below. */
  ghost predicate CorrectAt(c: Config, V: map<int, int>, L: map<int, int>, t: nat, n: int) {
    if n in V then V[n] == NodeHash(c, L, t, n) else Absent(c, L, t, n)
  }

  ghost predicate Correct(c: Config, V: map<int, int>, L: map<int, int>) {
    && (forall t: nat, n {:trigger CorrectAt(c, V, L, t, n)} :: InLayer(c, t, n) ==> CorrectAt(c, V, L, t, n))
    && (forall i :: i in L ==> 0 <= i < Offset(c))
    && 1 in V
  }

  ghost predicate Hashes(c: Config, P: map<int, (int, int)>) {
    forall k :: k in P ==> c.H(P[k].0, P[k].1) == k
  }

  /** Every stored inner node has its children recorded, save the root of a tree never modified. */
  ghost predicate Recorded(c: Config, V: map<int, int>, P: map<int, (int, int)>, rootToo: bool) {
    forall n :: n in V && n < Offset(c) && (n == 1 ==> rootToo) ==> V[n] in P
  }

  /** What a layer pass reads: the stored value or the default of the layer. */
  function Get(V: map<int, int>, n: int, d: int): int {
    if n in V then V[n] else d
  }

  lemma GetIs(c: Config, V: map<int, int>, L: map<int, int>, t: nat, n: int)
    requires CorrectAt(c, V, L, t, n)
    ensures Get(V, n, DefaultHash(c, t)) == NodeHash(c, L, t, n)
  {
    if n !in V { AbsentHash(c, L, t, n); }
  }

  /** The parents of the given nodes. */
  ghost function Halves(s: set<int>): set<int> {
    set i | i in s :: i / 2
  }

  // ---------------------------------------------------------------------------
  // One pass
  // ---------------------------------------------------------------------------

  /** Layers below `t` are up to date; layer `t` and above are as before; `indices` covers what changed. */
  ghost predicate Progress(c: Config, V: map<int, int>, L0: map<int, int>, L1: map<int, int>, indices: set<int>, t: nat) {
    && (forall s: nat, n {:trigger CorrectAt(c, V, L1, s, n)} :: s < t && InLayer(c, s, n) ==> CorrectAt(c, V, L1, s, n))
    && (forall s: nat, n {:trigger CorrectAt(c, V, L0, s, n)} :: t <= s && InLayer(c, s, n) ==> CorrectAt(c, V, L0, s, n))
    && (t <= c.height ==> forall n :: n in indices ==> InLayer(c, t, n))
    && (forall n {:trigger SameBelow(c, L0, L1, t, n)} :: InLayer(c, t, n) && n !in indices ==> SameBelow(c, L0, L1, t, n))
  }

  /** `V` is `V0` with the nodes `done` recomputed. */
  ghost predicate Pass(c: Config, V0: map<int, int>, V: map<int, int>, done: set<int>, d: int) {
    && (forall n :: n in V <==> n in V0 || n in done)
    && (forall n :: n in V && n !in done ==> V[n] == V0[n])
    && (forall n :: n in done ==> V[n] == c.H(Get(V0, 2 * n, d), Get(V0, 2 * n + 1, d)))
  }

  lemma UnchangedCorrect(c: Config, V0: map<int, int>, V: map<int, int>, done: set<int>, d: int, L: map<int, int>, t: nat, n: int)
    requires Pass(c, V0, V, done, d) && n !in done && CorrectAt(c, V0, L, t, n)
    ensures CorrectAt(c, V, L, t, n)
  {}

  lemma DoneCorrect(c: Config, V0: map<int, int>, V: map<int, int>, done: set<int>, L0: map<int, int>, L1: map<int, int>,
                    indices: set<int>, t: nat, n: int)
    requires t > 0 && Progress(c, V0, L0, L1, indices, t) && Pass(c, V0, V, done, DefaultHash(c, t - 1))
    requires n in done && InLayer(c, t, n)
    ensures CorrectAt(c, V, L1, t, n)
  {
    LayerChildren(c, t, n);
    assert CorrectAt(c, V0, L1, t - 1, 2 * n) && CorrectAt(c, V0, L1, t - 1, 2 * n + 1);
    GetIs(c, V0, L1, t - 1, 2 * n);
    GetIs(c, V0, L1, t - 1, 2 * n + 1);
  }

  /** A whole pass over layer `t`. */
  lemma PassLayer(c: Config, V0: map<int, int>, V: map<int, int>, L0: map<int, int>, L1: map<int, int>, indices: set<int>, t: nat, n: int)
    requires 0 < t <= c.height && InLayer(c, t, n)
    requires Progress(c, V0, L0, L1, indices, t) && Pass(c, V0, V, indices, DefaultHash(c, t - 1))
    ensures CorrectAt(c, V, L1, t, n)
  {
    if n in indices {
      DoneCorrect(c, V0, V, indices, L0, L1, indices, t, n);
    } else {
      assert CorrectAt(c, V0, L0, t, n);
      UnchangedCorrect(c, V0, V, indices, DefaultHash(c, t - 1), L0, t, n);
      assert SameBelow(c, L0, L1, t, n);
      SameBelowHash(c, L0, L1, t, n);
    }
  }

  lemma ParentsCover(c: Config, L0: map<int, int>, L1: map<int, int>, indices: set<int>, t: nat, n: int)
    requires InLayer(c, t + 1, n) && n !in Halves(indices)
    requires forall m {:trigger SameBelow(c, L0, L1, t, m)} :: InLayer(c, t, m) && m !in indices ==> SameBelow(c, L0, L1, t, m)
    ensures SameBelow(c, L0, L1, t + 1, n)
  {
    LayerChildren(c, t + 1, n);
    assert (2 * n) / 2 == n && (2 * n + 1) / 2 == n;
    assert 2 * n !in indices && 2 * n + 1 !in indices;
    assert SameBelow(c, L0, L1, t, 2 * n) && SameBelow(c, L0, L1, t, 2 * n + 1);
  }

  lemma PassProgress(c: Config, V0: map<int, int>, V: map<int, int>, L0: map<int, int>, L1: map<int, int>, indices: set<int>, t: nat)
    requires 0 < t <= c.height
    requires Progress(c, V0, L0, L1, indices, t) && Pass(c, V0, V, indices, DefaultHash(c, t - 1))
    ensures Progress(c, V, L0, L1, Halves(indices), t + 1)
  {
    var next := Halves(indices);
    forall s: nat, n | s < t + 1 && InLayer(c, s, n) ensures CorrectAt(c, V, L1, s, n) {
      if s == t {
        PassLayer(c, V0, V, L0, L1, indices, t, n);
      } else {
        if n in indices { LayerUnique(c, s, t, n); }
        assert CorrectAt(c, V0, L1, s, n);
      }
    }
    forall s: nat, n | t + 1 <= s && InLayer(c, s, n) ensures CorrectAt(c, V, L0, s, n) {
      if n in indices { LayerUnique(c, s, t, n); }
      assert CorrectAt(c, V0, L0, s, n);
    }
    if t + 1 <= c.height {
      forall n | n in next ensures InLayer(c, t + 1, n) {
        var i :| i in indices && n == i / 2;
        LayerParent(c, t, i);
      }
    }
    forall n | InLayer(c, t + 1, n) && n !in next ensures SameBelow(c, L0, L1, t + 1, n) {
      ParentsCover(c, L0, L1, indices, t, n);
    }
  }

  // ---------------------------------------------------------------------------
  // The modified leaves
  // ---------------------------------------------------------------------------

  /** The leaf map after the modifications, the last one of a leaf winning. */
  ghost function Apply(L: map<int, int>, mods: seq<(int, int)>): map<int, int> {
    if mods == [] then L
    else
      var m := mods[|mods| - 1];
      Apply(L, mods[..|mods| - 1])[m.0 := m.1]
  }

  predicate InRange(c: Config, mods: seq<(int, int)>) {
    forall j :: 0 <= j < |mods| ==> 0 <= mods[j].0 < Offset(c)
  }

  /** The ancestors, `t` layers up, of the modified leaves. */
  ghost function Ups(c: Config, mods: seq<(int, int)>, t: nat): set<int> {
    set j | 0 <= j < |mods| :: Above(Offset(c) + mods[j].0, t)
  }

  lemma UpsHalf(c: Config, mods: seq<(int, int)>, t: nat)
    ensures Halves(Ups(c, mods, t)) == Ups(c, mods, t + 1)
  {
    var halves := Halves(Ups(c, mods, t));
    forall x | x in halves ensures x in Ups(c, mods, t + 1) {
      var i :| i in Ups(c, mods, t) && x == i / 2;
      var j :| 0 <= j < |mods| && i == Above(Offset(c) + mods[j].0, t);
      assert x == Above(Offset(c) + mods[j].0, t + 1);
    }
    forall x | x in Ups(c, mods, t + 1) ensures x in halves {
      var j :| 0 <= j < |mods| && x == Above(Offset(c) + mods[j].0, t + 1);
      assert Above(Offset(c) + mods[j].0, t) in Ups(c, mods, t);
    }
  }

  lemma {:induction false} ApplyRange(c: Config, L: map<int, int>, mods: seq<(int, int)>)
    requires InRange(c, mods) && forall i :: i in L ==> 0 <= i < Offset(c)
    ensures forall i :: i in Apply(L, mods) ==> 0 <= i < Offset(c)
  {
    if mods != [] { ApplyRange(c, L, mods[..|mods| - 1]); }
  }

  /** `V` is `V0` with the leaves at the nodes `T` set as in `L1`. */
  ghost predicate Written(c: Config, V0: map<int, int>, V: map<int, int>, L0: map<int, int>, L1: map<int, int>, T: set<int>) {
    && (forall n :: n in V <==> n in V0 || n in T)
    && (forall n :: n in V && n !in T ==> V[n] == V0[n])
    && (forall n :: n in T ==> n - Offset(c) in L1 && V[n] == L1[n - Offset(c)])
    && (forall i {:trigger SameLeaf(L0, L1, i)} :: Offset(c) + i !in T ==> SameLeaf(L0, L1, i))
  }

  lemma WriteOne(c: Config, V0: map<int, int>, V: map<int, int>, L0: map<int, int>, L1: map<int, int>, T: set<int>, i: int, v: int)
    requires Written(c, V0, V, L0, L1, T)
    ensures Written(c, V0, V[Offset(c) + i := v], L0, L1[i := v], T + {Offset(c) + i})
  {
    var M := L1[i := v];
    forall k {:trigger SameLeaf(L0, M, k)} | Offset(c) + k !in T + {Offset(c) + i} ensures SameLeaf(L0, M, k) {
      assert SameLeaf(L0, L1, k);
    }
  }

  lemma LeavesCorrect(c: Config, V0: map<int, int>, V: map<int, int>, L0: map<int, int>, L1: map<int, int>, T: set<int>, n: int)
    requires Correct(c, V0, L0) && Written(c, V0, V, L0, L1, T) && InLayer(c, 0, n)
    ensures CorrectAt(c, V, L1, 0, n)
    ensures n !in T ==> SameBelow(c, L0, L1, 0, n)
  {
    assert CorrectAt(c, V0, L0, 0, n);
    if n !in T { assert SameLeaf(L0, L1, n - Offset(c)); }
  }

  lemma LeavesProgress(c: Config, V0: map<int, int>, V: map<int, int>, L0: map<int, int>, L1: map<int, int>, T: set<int>)
    requires Correct(c, V0, L0) && Written(c, V0, V, L0, L1, T) && forall n :: n in T ==> InLayer(c, 0, n)
    ensures Progress(c, V, L0, L1, Halves(T), 1)
  {
    var next := Halves(T);
    forall n | InLayer(c, 0, n) ensures CorrectAt(c, V, L1, 0, n) && (n !in T ==> SameBelow(c, L0, L1, 0, n)) {
      LeavesCorrect(c, V0, V, L0, L1, T, n);
    }
    forall s: nat, n | 1 <= s && InLayer(c, s, n) ensures CorrectAt(c, V, L0, s, n) {
      if n in T { LayerUnique(c, s, 0, n); }
      assert CorrectAt(c, V0, L0, s, n);
    }
    if 1 <= c.height {
      forall n | n in next ensures InLayer(c, 1, n) {
        var i :| i in T && n == i / 2;
        LayerParent(c, 0, i);
      }
    }
    forall n | InLayer(c, 1, n) && n !in next ensures SameBelow(c, L0, L1, 1, n) {
      ParentsCover(c, L0, L1, T, 0, n);
    }
  }

  lemma LeafLayer(c: Config, mods: seq<(int, int)>)
    requires InRange(c, mods)
    ensures forall n :: n in Ups(c, mods, 0) ==> InLayer(c, 0, n)
  {}

  lemma DivZero(k: int, d: int)
    requires d > 0
    ensures k / d == 0 <==> 0 <= k < d
  {
    if 0 <= k < d { DivUnique(k, d, 0, k); }
  }

  /** The leaf numbers that the closing check lets through: those in range, and negative ones. */
  predicate Passes(c: Config, i: int) {
    0 <= Offset(c) + i < 2 * Offset(c)
  }

  lemma UpZero(c: Config, i: int)
    ensures Above(Offset(c) + i, c.height + 1) == 0 <==> Passes(c, i)
  {
    AboveIsDiv(Offset(c) + i, c.height + 1);
    DivZero(Offset(c) + i, Pow2(c.height + 1));
  }

  /** What the closing check decides. */
  lemma ClosingCheck(c: Config, mods: seq<(int, int)>)
    requires mods != []
    ensures Ups(c, mods, c.height + 1) == {0} <==> forall j :: 0 <= j < |mods| ==> Passes(c, mods[j].0)
  {
    var up := Ups(c, mods, c.height + 1);
    forall j | 0 <= j < |mods|
      ensures Above(Offset(c) + mods[j].0, c.height + 1) == 0 <==> Passes(c, mods[j].0)
      ensures Above(Offset(c) + mods[j].0, c.height + 1) in up
    {
      UpZero(c, mods[j].0);
    }
    assert Above(Offset(c) + mods[0].0, c.height + 1) in up;
  }

  // Leaf numbers that address the root or the unused node 0.

  ghost predicate TopOnly(c: Config, mods: seq<(int, int)>) {
    forall j :: 0 <= j < |mods| ==> 0 <= Offset(c) + mods[j].0 <= 1
  }

  /** The last value for leaf number `i`, or `d`. */
  ghost function LastWritten(mods: seq<(int, int)>, i: int, d: int): int {
    if mods == [] then d
    else
      var m := mods[|mods| - 1];
      if m.0 == i then m.1 else LastWritten(mods[..|mods| - 1], i, d)
  }

  lemma {:induction false} LastWrittenIs(c: Config, L: map<int, int>, mods: seq<(int, int)>, n: int, d: int)
    ensures var i := n - Offset(c);
      if n in Ups(c, mods, 0) then i in Apply(L, mods) && Apply(L, mods)[i] == LastWritten(mods, i, d)
      else LastWritten(mods, i, d) == d
  {
    if mods != [] {
      var k := |mods| - 1;
      LastWrittenIs(c, L, mods[..k], n, d);
      assert mods[..k + 1] == mods;
      UpsAppend(c, mods, k, 0);
    }
  }

  lemma {:induction false} SmallAbove(m: int, t: nat)
    requires 0 <= m <= 1 && t > 0
    ensures Above(m, t) == 0
  {
    if t > 1 { SmallAbove(m, t - 1); }
  }

  lemma RootUntouched(c: Config, mods: seq<(int, int)>, t: nat)
    requires TopOnly(c, mods) && t > 0
    ensures 1 !in Ups(c, mods, t)
  {
    forall j | 0 <= j < |mods| ensures Above(Offset(c) + mods[j].0, t) == 0 { SmallAbove(Offset(c) + mods[j].0, t); }
  }

  // ---------------------------------------------------------------------------
  // The class
  // ---------------------------------------------------------------------------

  lemma FreshCorrect(c: Config)
    ensures Correct(c, map[1 := DefaultHash(c, c.height)], map[])
  {
    var V := map[1 := DefaultHash(c, c.height)];
    forall t: nat, n | InLayer(c, t, n) ensures CorrectAt(c, V, map[], t, n) {
      EmptyAbsent(c, t, n);
      AbsentHash(c, map[], t, n);
      if n == 1 {
        assert InLayer(c, c.height, 1);
        LayerUnique(c, t, c.height, 1);
      }
    }
  }

  lemma {:induction false} EmptyAbsent(c: Config, t: nat, n: int)
    ensures Absent(c, map[], t, n)
  {
    if t > 0 {
      EmptyAbsent(c, t - 1, 2 * n);
      EmptyAbsent(c, t - 1, 2 * n + 1);
    }
  }

  class MerkleTree {
    const c: Config
    var nodeValues: map<int, int>
    var preimage: map<int, (int, int)>
    /** The leaves set so far. */
    ghost var leaves: map<int, int>

    ghost predicate Valid()
      reads this
    {
      && Correct(c, nodeValues, leaves)
      && Hashes(c, preimage)
      && Recorded(c, nodeValues, preimage, leaves != map[])
    }

    constructor (config: Config)
      ensures Valid() && c == config && leaves == map[] && preimage == map[]
    {
      c := config;
      var emptyTreeRoot := config.defaultLeaf;
      for i := 0 to config.height
        invariant emptyTreeRoot == DefaultHash(config, i)
      {
        emptyTreeRoot := config.H(emptyTreeRoot, emptyTreeRoot);
      }
      nodeValues := map[1 := emptyTreeRoot];
      preimage := map[];
      leaves := map[];
      new;
      FreshCorrect(config);
      if config.height > 0 { Pow2Monotone(1, config.height); }
    }

    /** The loop over the modifications. */
    method SetLeaves(mods: seq<(int, int)>) returns (indices: set<int>)
      modifies this`nodeValues
      ensures indices == Ups(c, mods, 1)
      ensures Written(c, old(nodeValues), nodeValues, leaves, Apply(leaves, mods), Ups(c, mods, 0))
    {
      indices := {};
      ghost var V0 := nodeValues;
      for j := 0 to |mods|
        invariant indices == Ups(c, mods[..j], 1)
        invariant Written(c, V0, nodeValues, leaves, Apply(leaves, mods[..j]), Ups(c, mods[..j], 0))
      {
        var (index, value) := mods[j];
        var nodeIndex := Pow2(c.height) + index;
        WriteOne(c, V0, nodeValues, leaves, Apply(leaves, mods[..j]), Ups(c, mods[..j], 0), index, value);
        assert mods[..j + 1][..j] == mods[..j];
        UpsAppend(c, mods, j, 0);
        UpsAppend(c, mods, j, 1);
        nodeValues := nodeValues[nodeIndex := value];
        indices := indices + {nodeIndex / 2};
      }
      assert mods[..|mods|] == mods;
    }

    /** The while loop over one layer, popping the indices in any order. */
    method HashLayer(all: set<int>, defaultNode: int) returns (newIndices: set<int>)
      requires Hashes(c, preimage)
      modifies this`nodeValues, this`preimage
      ensures newIndices == Halves(all)
      ensures Hashes(c, preimage) && old(preimage).Keys <= preimage.Keys
      ensures Separate(all) ==> Pass(c, old(nodeValues), nodeValues, all, defaultNode)
      ensures AllRecorded(all, nodeValues, preimage)
      ensures old(nodeValues).Keys <= nodeValues.Keys
      ensures 1 !in all ==> SameLeaf(old(nodeValues), nodeValues, 1)
    {
      newIndices := {};
      var indices := all;
      ghost var V0, P0 := nodeValues, preimage;
      StartLayer(c, V0, P0, all, defaultNode);
      while indices != {}
        invariant indices <= all && newIndices == Halves(all - indices)
        invariant PartlyHashed(c, V0, P0, nodeValues, preimage, all, all - indices, defaultNode)
        decreases |indices|
      {
        SomeMember(indices);
        var index :| index in indices;
        var left := Get(nodeValues, 2 * index, defaultNode);
        var right := Get(nodeValues, 2 * index + 1, defaultNode);
        var nodeHash := c.H(left, right);
        HashOne(c, V0, P0, nodeValues, preimage, all, all - indices, defaultNode, index);
        HalvesAdd(all - indices, index);
        PopOne(all, indices, index);
        indices := indices - {index};
        nodeValues := nodeValues[index := nodeHash];
        preimage := preimage[nodeHash := (left, right)];
        newIndices := newIndices + {index / 2};
      }
      assert all - {} == all;
      assert 1 !in all ==> SameLeaf(V0, nodeValues, 1);
    }

    /** The loop over the layers. */
    method HashLayers(mods: seq<(int, int)>, start: set<int>, ghost L0: map<int, int>) returns (indices: set<int>)
      requires Hashes(c, preimage) && start == Ups(c, mods, 1)
      modifies this`nodeValues, this`preimage
      ensures indices == Ups(c, mods, c.height + 1)
      ensures Hashes(c, preimage) && old(preimage).Keys <= preimage.Keys
      ensures old(nodeValues).Keys <= nodeValues.Keys
      ensures InRange(c, mods) && old(Progress(c, nodeValues, L0, leaves, start, 1)) ==>
        Progress(c, nodeValues, L0, leaves, indices, c.height + 1)
      ensures InRange(c, mods) && mods != [] && old(Progress(c, nodeValues, L0, leaves, start, 1) && Recorded(c, nodeValues, preimage, false)) ==>
        Recorded(c, nodeValues, preimage, true)
      ensures TopOnly(c, mods) ==> SameLeaf(old(nodeValues), nodeValues, 1)
    {
      var defaultNode := c.defaultLeaf;
      indices := start;
      ghost var ok := InRange(c, mods) && Progress(c, nodeValues, L0, leaves, start, 1);
      ghost var rec := ok && Recorded(c, nodeValues, preimage, false);
      for t := 0 to c.height
        invariant defaultNode == DefaultHash(c, t)
        invariant indices == Ups(c, mods, t + 1)
        invariant Hashes(c, preimage) && old(preimage).Keys <= preimage.Keys
        invariant old(nodeValues).Keys <= nodeValues.Keys
        invariant ok ==> Progress(c, nodeValues, L0, leaves, indices, t + 1)
        invariant rec ==> Recorded(c, nodeValues, preimage, false)
        invariant TopOnly(c, mods) ==> SameLeaf(old(nodeValues), nodeValues, 1)
        invariant rec && t == c.height && t > 0 && mods != [] ==> 1 in nodeValues && nodeValues[1] in preimage
      {
        indices := HashRound(mods, indices, defaultNode, L0, t, ok, rec);
        defaultNode := c.H(defaultNode, defaultNode);
      }
    }

    /** One round of the loop over the layers. */
    method HashRound(ghost mods: seq<(int, int)>, indices: set<int>, defaultNode: int, ghost L0: map<int, int>, ghost t: nat,
                     ghost ok: bool, ghost rec: bool)
      returns (newIndices: set<int>)
      requires Hashes(c, preimage) && t < c.height && defaultNode == DefaultHash(c, t) && indices == Ups(c, mods, t + 1)
      requires ok ==> Progress(c, nodeValues, L0, leaves, indices, t + 1)
      requires rec ==> ok && Recorded(c, nodeValues, preimage, false)
      modifies this`nodeValues, this`preimage
      ensures newIndices == Ups(c, mods, t + 2)
      ensures Hashes(c, preimage) && old(preimage).Keys <= preimage.Keys && old(nodeValues).Keys <= nodeValues.Keys
      ensures ok ==> Progress(c, nodeValues, L0, leaves, newIndices, t + 2)
      ensures rec ==> Recorded(c, nodeValues, preimage, false)
      ensures TopOnly(c, mods) ==> SameLeaf(old(nodeValues), nodeValues, 1)
      ensures rec && t + 1 == c.height && mods != [] ==> 1 in nodeValues && nodeValues[1] in preimage
    {
      ghost var V0, P0 := nodeValues, preimage;
      if ok { LayerSeparate(c, indices, t + 1); }
      newIndices := HashLayer(indices, defaultNode);
      if ok { PassProgress(c, V0, nodeValues, L0, leaves, indices, t + 1); }
      if rec { PassRecorded(c, V0, P0, nodeValues, preimage, indices, defaultNode); }
      if ok && t + 1 == c.height && mods != [] { TopLayer(c, mods, indices); }
      if TopOnly(c, mods) { RootUntouched(c, mods, t + 1); }
      UpsHalf(c, mods, t + 1);
    }

    /** What holds after any calls at all, whatever the indices. */
    ghost predicate Sound()
      reads this
    {
      1 in nodeValues && Hashes(c, preimage)
    }

    /** compute_merkle_root; None is the failed closing check. */
    method ComputeMerkleRoot(mods: seq<(int, int)>) returns (r: Option<int>)
      requires Sound()
      modifies this
      ensures Sound() && old(preimage).Keys <= preimage.Keys
      ensures r.Some? <==> forall j :: 0 <= j < |mods| ==> Passes(c, mods[j].0)
      ensures old(Valid()) && InRange(c, mods) ==>
        Valid() && leaves == Apply(old(leaves), mods) && r == Some(TreeHash(c, leaves))
      ensures TopOnly(c, mods) ==> r == Some(LastWritten(mods, 1 - Offset(c), old(nodeValues[1])))
    {
      ghost var ok := Valid() && InRange(c, mods);
      assert InLayer(c, c.height, 1);
      if |mods| == 0 {
        assert ok ==> CorrectAt(c, nodeValues, leaves, c.height, 1);
        return Some(nodeValues[1]);
      }
      ghost var V0, L0 := nodeValues, leaves;
      var indices := SetLeaves(mods);
      ghost var T := Ups(c, mods, 0);
      leaves := Apply(L0, mods);
      if ok {
        ApplyRange(c, L0, mods);
        LeafLayer(c, mods);
        LeavesProgress(c, V0, nodeValues, L0, leaves, T);
        UpsHalf(c, mods, 0);
        LeavesRecorded(c, V0, nodeValues, preimage, L0, leaves, T);
      }
      LastWrittenIs(c, L0, mods, 1, V0[1]);
      indices := HashLayers(mods, indices, L0);
      ClosingCheck(c, mods);
      if indices != {0} { return None; }
      if ok { ProgressCorrect(c, nodeValues, L0, leaves, indices); }
      return Some(nodeValues[1]);
    }
  }

  /** A negative leaf number that passes the closing check: in a fresh tree of height 1, writing `v` to
      leaf -1 overwrites the root, which is returned as it is. */
  method NegativeLeaf(H: (int, int) -> int, defaultLeaf: int, v: int) returns (r: Option<int>)
    ensures !InRange(Config(H, 1, defaultLeaf), [(-1, v)])
    ensures r == Some(v)
  {
    var c := Config(H, 1, defaultLeaf);
    var mods := [(-1, v)];
    var tree := new MerkleTree(c);
    r := tree.ComputeMerkleRoot(mods);
    assert mods[0].0 == -1 && Offset(c) == 2;
    assert LastWritten(mods, -1, 0) == v;
  }

  /** Every node of the full tree with a set leaf below it can be opened. */
  ghost predicate Opens(c: Config, P: map<int, (int, int)>, L: map<int, int>) {
    forall t: nat, n {:trigger Absent(c, L, t, n)} ::
      InLayer(c, t, n) && t > 0 && !Absent(c, L, t, n) ==> NodeHash(c, L, t, n) in P
  }

  lemma RecordedOpens(c: Config, V: map<int, int>, P: map<int, (int, int)>, L: map<int, int>)
    requires Correct(c, V, L) && Recorded(c, V, P, L != map[])
    ensures Opens(c, P, L)
  {
    forall t: nat, n | InLayer(c, t, n) && t > 0 && !Absent(c, L, t, n) ensures NodeHash(c, L, t, n) in P {
      assert CorrectAt(c, V, L, t, n);
      InnerNode(c, t, n);
      if L == map[] { EmptyAbsent(c, t, n); }
    }
  }

  /** Under a collision-free hash an entry lists the two children of its node. */
  lemma OpensChildren(c: Config, P: map<int, (int, int)>, L: map<int, int>, t: nat, n: int)
    requires forall a, b, x, y :: c.H(a, b) == c.H(x, y) ==> a == x && b == y
    requires Hashes(c, P) && Opens(c, P, L) && t > 0 && InLayer(c, t, n) && !Absent(c, L, t, n)
    ensures NodeHash(c, L, t, n) in P
    ensures P[NodeHash(c, L, t, n)] == (NodeHash(c, L, t - 1, 2 * n), NodeHash(c, L, t - 1, 2 * n + 1))
  {
    var k := NodeHash(c, L, t, n);
    var l, r := NodeHash(c, L, t - 1, 2 * n), NodeHash(c, L, t - 1, 2 * n + 1);
    assert k in P;
    var (x, y) := P[k];
    assert c.H(x, y) == c.H(l, r);
  }

  /** get_preimage_dictionary */
  method GetPreimageDictionary(c: Config, initial: seq<(int, int)>, mods: seq<(int, int)>)
    returns (r: Option<(int, int, map<int, (int, int)>)>)
    ensures r.Some? <==> forall j :: 0 <= j < |initial + mods| ==> Passes(c, (initial + mods)[j].0)
    ensures r.Some? ==> Hashes(c, r.value.2)
    ensures InRange(c, initial) && InRange(c, mods) ==>
      var L0 := Apply(map[], initial);
      var L1 := Apply(L0, mods);
      && r.Some? && r.value.0 == TreeHash(c, L0) && r.value.1 == TreeHash(c, L1)
      && Opens(c, r.value.2, L0) && Opens(c, r.value.2, L1)
  {
    var tree := new MerkleTree(c);
    var before := tree.ComputeMerkleRoot(initial);
    ghost var P0 := tree.preimage;
    ghost var ok := InRange(c, initial) && InRange(c, mods);
    if ok { RecordedOpens(c, tree.nodeValues, tree.preimage, tree.leaves); }
    PassesBoth(c, initial, mods);
    if before.None? { return None; }
    var after := tree.ComputeMerkleRoot(mods);
    if after.None? { return None; }
    if ok {
      RecordedOpens(c, tree.nodeValues, tree.preimage, tree.leaves);
      OpensMore(c, P0, tree.preimage, Apply(map[], initial));
    }
    return Some((before.value, after.value, tree.preimage));
  }

  lemma PassesBoth(c: Config, a: seq<(int, int)>, b: seq<(int, int)>)
    ensures (forall j :: 0 <= j < |a + b| ==> Passes(c, (a + b)[j].0)) <==>
      (forall j :: 0 <= j < |a| ==> Passes(c, a[j].0)) && (forall j :: 0 <= j < |b| ==> Passes(c, b[j].0))
    ensures InRange(c, a) && InRange(c, b) ==> forall j :: 0 <= j < |a + b| ==> Passes(c, (a + b)[j].0)
  {
    if forall j :: 0 <= j < |a + b| ==> Passes(c, (a + b)[j].0) {
      forall j | 0 <= j < |a| ensures Passes(c, a[j].0) { assert (a + b)[j] == a[j]; }
      forall j | 0 <= j < |b| ensures Passes(c, b[j].0) { assert (a + b)[|a| + j] == b[j]; }
    }
  }

  lemma OpensMore(c: Config, P: map<int, (int, int)>, Q: map<int, (int, int)>, L: map<int, int>)
    requires Opens(c, P, L) && P.Keys <= Q.Keys
    ensures Opens(c, Q, L)
  {
    forall t: nat, n | InLayer(c, t, n) && t > 0 && !Absent(c, L, t, n) ensures NodeHash(c, L, t, n) in Q {
      assert NodeHash(c, L, t, n) in P.Keys;
    }
  }

  ghost predicate AllRecorded(s: set<int>, V: map<int, int>, P: map<int, (int, int)>) {
    forall n :: n in s ==> n in V && V[n] in P
  }

  lemma RecordOne(s: set<int>, V: map<int, int>, P: map<int, (int, int)>, n: int, hash: int, kids: (int, int))
    requires AllRecorded(s, V, P)
    ensures AllRecorded(s + {n}, V[n := hash], P[hash := kids]) && P.Keys <= P[hash := kids].Keys
  {}

  /** No node of the set is a child of another. */
  ghost predicate Separate(s: set<int>) {
    forall n :: n in s ==> 2 * n !in s && 2 * n + 1 !in s
  }

  lemma LayerSeparate(c: Config, indices: set<int>, t: nat)
    requires 0 < t <= c.height && forall n :: n in indices ==> InLayer(c, t, n)
    ensures Separate(indices)
  {
    forall n | n in indices ensures 2 * n !in indices && 2 * n + 1 !in indices {
      LayerChildren(c, t, n);
    }
  }

  lemma PassOne(c: Config, V0: map<int, int>, V: map<int, int>, all: set<int>, done: set<int>, d: int, index: int)
    requires Separate(all) && done <= all && index in all && Pass(c, V0, V, done, d)
    ensures Pass(c, V0, V[index := c.H(Get(V, 2 * index, d), Get(V, 2 * index + 1, d))], done + {index}, d)
  {
    assert 2 * index !in done && 2 * index + 1 !in done;
    assert Get(V, 2 * index, d) == Get(V0, 2 * index, d) && Get(V, 2 * index + 1, d) == Get(V0, 2 * index + 1, d);
  }

  lemma SomeMember(s: set<int>)
    ensures s == {} || exists i :: i in s
  {
    if forall i :: i !in s { assert s == {}; }
  }

  /** The state of the while loop over a layer. */
  ghost predicate PartlyHashed(c: Config, V0: map<int, int>, P0: map<int, (int, int)>, V: map<int, int>, P: map<int, (int, int)>,
                               all: set<int>, done: set<int>, d: int)
  {
    && Hashes(c, P) && P0.Keys <= P.Keys && V0.Keys <= V.Keys
    && (Separate(all) ==> Pass(c, V0, V, done, d))
    && AllRecorded(done, V, P)
    && (forall n {:trigger SameLeaf(V0, V, n)} :: n !in done ==> SameLeaf(V0, V, n))
  }

  lemma StartLayer(c: Config, V: map<int, int>, P: map<int, (int, int)>, all: set<int>, d: int)
    requires Hashes(c, P)
    ensures PartlyHashed(c, V, P, V, P, all, all - all, d) && Halves(all - all) == {}
  {}

  lemma PopOne(all: set<int>, indices: set<int>, index: int)
    requires index in indices && indices <= all
    ensures all - (indices - {index}) == (all - indices) + {index}
  {}

  lemma HashOne(c: Config, V0: map<int, int>, P0: map<int, (int, int)>, V: map<int, int>, P: map<int, (int, int)>,
                all: set<int>, done: set<int>, d: int, index: int)
    requires PartlyHashed(c, V0, P0, V, P, all, done, d) && done <= all && index in all
    ensures var (left, right) := (Get(V, 2 * index, d), Get(V, 2 * index + 1, d));
      var hash := c.H(left, right);
      PartlyHashed(c, V0, P0, V[index := hash], P[hash := (left, right)], all, done + {index}, d)
  {
    var (left, right) := (Get(V, 2 * index, d), Get(V, 2 * index + 1, d));
    if Separate(all) { PassOne(c, V0, V, all, done, d, index); }
    RecordOne(done, V, P, index, c.H(left, right), (left, right));
    var V' := V[index := c.H(left, right)];
    forall n {:trigger SameLeaf(V0, V', n)} | n !in done + {index} ensures SameLeaf(V0, V', n) {
      assert SameLeaf(V0, V, n);
    }
  }

  lemma HalvesAdd(done: set<int>, index: int)
    ensures Halves(done + {index}) == Halves(done) + {index / 2}
  {
    var a, b := Halves(done + {index}), Halves(done);
    assert index in done + {index};
    forall x | x in b ensures x in a {
      var i :| i in done && x == i / 2;
      assert i in done + {index};
    }
  }

  lemma PassRecorded(c: Config, V0: map<int, int>, P0: map<int, (int, int)>, V: map<int, int>, P: map<int, (int, int)>,
                     indices: set<int>, d: int)
    requires Recorded(c, V0, P0, false) && Pass(c, V0, V, indices, d) && P0.Keys <= P.Keys
    requires AllRecorded(indices, V, P)
    ensures Recorded(c, V, P, false)
  {
    forall n | n in V && n < Offset(c) && n != 1 ensures V[n] in P {
      if n !in indices { assert V0[n] in P0.Keys; }
    }
  }

  lemma TopLayer(c: Config, mods: seq<(int, int)>, indices: set<int>)
    requires mods != [] && indices == Ups(c, mods, c.height) && forall n :: n in indices ==> InLayer(c, c.height, n)
    ensures 1 in indices
  {
    assert Above(Offset(c) + mods[0].0, c.height) in indices;
  }

  lemma LeavesRecorded(c: Config, V0: map<int, int>, V: map<int, int>, P: map<int, (int, int)>,
                       L0: map<int, int>, L1: map<int, int>, T: set<int>)
    requires Written(c, V0, V, L0, L1, T) && Recorded(c, V0, P, L0 != map[]) && forall n :: n in T ==> InLayer(c, 0, n)
    ensures Recorded(c, V, P, false)
  {
  }

  lemma ProgressCorrect(c: Config, V: map<int, int>, L0: map<int, int>, L1: map<int, int>, indices: set<int>)
    requires Progress(c, V, L0, L1, indices, c.height + 1)
    requires 1 in V && forall i :: i in L1 ==> 0 <= i < Offset(c)
    ensures Correct(c, V, L1) && V[1] == TreeHash(c, L1)
  {
    assert InLayer(c, c.height, 1);
    assert CorrectAt(c, V, L1, c.height, 1);
  }

  lemma UpsAppend(c: Config, mods: seq<(int, int)>, j: nat, t: nat)
    requires j < |mods|
    ensures Ups(c, mods[..j + 1], t) == Ups(c, mods[..j], t) + {Above(Offset(c) + mods[j].0, t)}
  {
    var all, some := Ups(c, mods[..j + 1], t), Ups(c, mods[..j], t);
    forall x | x in all ensures x in some || x == Above(Offset(c) + mods[j].0, t) {
      var k :| 0 <= k < j + 1 && x == Above(Offset(c) + mods[..j + 1][k].0, t);
      if k < j { assert x == Above(Offset(c) + mods[..j][k].0, t); }
    }
    forall x | x in some ensures x in all {
      var k :| 0 <= k < j && x == Above(Offset(c) + mods[..j][k].0, t);
      assert x == Above(Offset(c) + mods[..j + 1][k].0, t);
    }
    assert Above(Offset(c) + mods[..j + 1][j].0, t) in all;
  }
}
