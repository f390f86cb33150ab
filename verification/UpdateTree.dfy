/**
 The tree of leaf updates, built layer by layer
 (src/starkware/starkware_utils/commitment_tree/update_tree.py, build_update_tree).
 */
module UpdateTree {
  import opened Common

  datatype UpdateTree<+L> =
    | NoUpdate
    | LeafUpdate(fact: L)
    | Fork(left: UpdateTree<L>, right: UpdateTree<L>)

  /** `dict(modifications)`: the last modification of an index wins. */
  function ToDict<L>(mods: seq<(int, L)>): map<int, L> {
    if mods == [] then map[]
    else ToDict(mods[..|mods| - 1])[mods[|mods| - 1].0 := mods[|mods| - 1].1]
  }

  /** An update tree of a subtree of height `h`: leaves at the bottom only, and no pair of two
      empty trees. */
  ghost predicate WellFormed<L>(u: UpdateTree<L>, h: nat) {
    match u
    case NoUpdate => true
    case LeafUpdate(_) => h == 0
    case Fork(l, r) =>
      h > 0 && !(l.NoUpdate? && r.NoUpdate?) && WellFormed(l, h - 1) && WellFormed(r, h - 1)
  }

  /** The update that the tree holds for the leaf at position `i` of its subtree. */
  function Lookup<L>(u: UpdateTree<L>, h: nat, i: nat): Option<L>
    requires i < Pow2(h)
    decreases h
  {
    match u
    case NoUpdate => None
    case LeafUpdate(f) => Some(f)
    case Fork(l, r) =>
      if h == 0 then None
      else if i < Pow2(h - 1) then Lookup(l, h - 1, i)
      else Lookup(r, h - 1, i - Pow2(h - 1))
  }

  ghost predicate HasUpdate<L>(m: map<int, L>, h: nat, i: int) {
    exists k :: k in m && Above(k, h) == i
  }

  /** The subtree of height `h` at index `i` of its layer, by recursive splitting. */
  ghost function Split<L>(m: map<int, L>, h: nat, i: int): UpdateTree<L>
    decreases h
  {
    if !HasUpdate(m, h, i) then NoUpdate
    else if h == 0 then LeafUpdate(m[i])
    else Fork(Split(m, h - 1, 2 * i), Split(m, h - 1, 2 * i + 1))
  }

  /** A subtree has an update exactly when one of its halves has. */
  lemma HasUpdateHalves<L>(m: map<int, L>, h: nat, i: int)
    ensures HasUpdate(m, h + 1, i) <==> HasUpdate(m, h, 2 * i) || HasUpdate(m, h, 2 * i + 1)
  {
    if HasUpdate(m, h + 1, i) {
      var k :| k in m && Above(k, h + 1) == i;
      assert Above(k, h) == 2 * i || Above(k, h) == 2 * i + 1;
    }
    if k :| k in m && (Above(k, h) == 2 * i || Above(k, h) == 2 * i + 1) {
      assert Above(k, h + 1) == i;
    }
  }

  ghost predicate InRange<L>(mods: seq<(int, L)>, height: nat) {
    forall j :: 0 <= j < |mods| ==> 0 <= mods[j].0 < Pow2(height)
  }

  lemma {:induction false} ToDictKeys<L>(mods: seq<(int, L)>, k: int)
    ensures k in ToDict(mods) <==> exists j :: 0 <= j < |mods| && mods[j].0 == k
  {
    if mods != [] {
      var n := |mods| - 1;
      ToDictKeys(mods[..n], k);
      if k in ToDict(mods[..n]) {
        var j :| 0 <= j < n && mods[..n][j].0 == k;
        assert mods[j].0 == k;
      }
      if j :| 0 <= j < |mods| && mods[j].0 == k {
        assert j < n ==> mods[..n][j].0 == k;
      }
    }
  }

  ghost predicate OnlyRoot<L>(m: map<int, L>, height: nat) {
    forall i :: HasUpdate(m, height, i) <==> i == 0
  }

  /** All indices are in range exactly when the top layer consists of index 0 alone. */
  lemma TopLayer<L>(mods: seq<(int, L)>, height: nat)
    requires mods != []
    ensures InRange(mods, height) <==> OnlyRoot(ToDict(mods), height)
  {
    var m := ToDict(mods);
    forall k: int ensures Above(k, height) == 0 <==> 0 <= k < Pow2(height) {
      AboveIsDiv(k, height);
      if 0 <= k < Pow2(height) { DivUnique(k, Pow2(height), 0, k); }
    }
    forall j | 0 <= j < |mods| ensures HasUpdate(m, height, Above(mods[j].0, height)) {
      ToDictKeys(mods, mods[j].0);
    }
    if InRange(mods, height) {
      forall i ensures HasUpdate(m, height, i) <==> i == 0 {
        if HasUpdate(m, height, i) {
          var k :| k in m && Above(k, height) == i;
          ToDictKeys(mods, k);
        }
        assert HasUpdate(m, height, Above(mods[0].0, height)) && Above(mods[0].0, height) == 0;
      }
    }
  }

  ghost predicate IsLayer<L>(layer: map<int, UpdateTree<L>>, m: map<int, L>, h: nat) {
    && (forall i :: i in layer <==> HasUpdate(m, h, i))
    && (forall i :: i in layer ==> layer[i] == Split(m, h, i))
  }

  /** One iteration of the loop: from a layer to the layer of its parents. */
  function Parents<L>(layer: map<int, UpdateTree<L>>): map<int, UpdateTree<L>> {
    var parents := set index | index in layer.Keys :: index / 2;
    map index | index in parents :: Fork(Get(layer, index * 2), Get(layer, index * 2 + 1))
  }

  lemma ParentsKeys<L>(layer: map<int, UpdateTree<L>>, i: int)
    ensures i in Parents(layer) <==> 2 * i in layer || 2 * i + 1 in layer
  {
    assert 2 * i in layer ==> (2 * i) / 2 in Parents(layer);
    assert 2 * i + 1 in layer ==> (2 * i + 1) / 2 in Parents(layer);
  }

  lemma ParentsIsLayer<L>(layer: map<int, UpdateTree<L>>, m: map<int, L>, h: nat)
    requires IsLayer(layer, m, h)
    ensures IsLayer(Parents(layer), m, h + 1)
  {
    forall i
      ensures i in Parents(layer) <==> HasUpdate(m, h + 1, i)
      ensures i in Parents(layer) ==> Parents(layer)[i] == Split(m, h + 1, i)
    {
      ParentsKeys(layer, i);
      HasUpdateHalves(m, h, i);
    }
  }

  lemma BottomIsLayer<L>(layer: map<int, UpdateTree<L>>, m: map<int, L>)
    requires layer == map k | k in m :: LeafUpdate(m[k])
    ensures IsLayer(layer, m, 0)
  {
    forall i ensures HasUpdate(m, 0, i) <==> i in m {
      assert Above(i, 0) == i;
    }
  }

  /** The layer-by-layer construction. It fails exactly when some index is out of range, and
      otherwise gives the recursive split of the modifications. */
  method BuildUpdateTree<L>(height: nat, mods: seq<(int, L)>) returns (r: Option<UpdateTree<L>>)
    ensures r.Some? <==> InRange(mods, height)
    ensures r.Some? ==> r.value == Split(ToDict(mods), height, 0)
  {
    if |mods| == 0 {
      return Some(NoUpdate);
    }
    var m := ToDict(mods);
    var layer: map<int, UpdateTree<L>> := map k | k in m :: LeafUpdate(m[k]);
    BottomIsLayer(layer, m);
    for t := 0 to height
      invariant IsLayer(layer, m, t)
    {
      ParentsIsLayer(layer, m, t);
      layer := Parents(layer);
    }
    TopLayer(mods, height);
    if |layer| == 1 && 0 in layer {
      Singleton(layer.Keys, 0);
      r := Some(layer[0]);
    } else {
      r := None;
      if OnlyRoot(m, height) { OnlyRootLayer(layer, m, height); }
    }
  }

  lemma OnlyRootLayer<L>(layer: map<int, UpdateTree<L>>, m: map<int, L>, height: nat)
    requires IsLayer(layer, m, height) && OnlyRoot(m, height)
    ensures |layer| == 1 && 0 in layer
  {
    forall i | i in layer.Keys ensures i == 0 {
      assert HasUpdate(m, height, i);
    }
    assert HasUpdate(m, height, 0) && 0 in layer.Keys;
    assert layer.Keys == {0};
    assert |layer.Keys| == 1;
  }

  lemma Singleton(s: set<int>, x: int)
    requires |s| == 1 && x in s
    ensures s == {x}
  {
    assert |s - {x}| == 0;
  }

  /** `layer.get(key)`. */
  function Get<L>(layer: map<int, UpdateTree<L>>, key: int): UpdateTree<L> {
    if key in layer then layer[key] else NoUpdate
  }

  /** The split never contains a pair of empty trees. */
  lemma {:induction false} SplitWellFormed<L>(m: map<int, L>, h: nat, i: int)
    ensures WellFormed(Split(m, h, i), h)
    decreases h
  {
    if HasUpdate(m, h, i) && h > 0 {
      HasUpdateHalves(m, h - 1, i);
      SplitWellFormed(m, h - 1, 2 * i);
      SplitWellFormed(m, h - 1, 2 * i + 1);
    }
  }

  /** The split holds exactly the modifications of its range. */
  lemma {:induction false} SplitLookup<L>(m: map<int, L>, h: nat, i: int, j: nat)
    requires j < Pow2(h)
    ensures Lookup(Split(m, h, i), h, j) == (if i * Pow2(h) + j in m then Some(m[i * Pow2(h) + j]) else None)
    decreases h
  {
    var p := Pow2(h);
    if !HasUpdate(m, h, i) {
      DivUnique(i * p + j, p, i, j);
      AboveIsDiv(i * p + j, h);
    } else if h > 0 {
      var q := Pow2(h - 1);
      assert i * p == (2 * i) * q;
      assert (2 * i + 1) * q == i * p + q;
      if j < q { SplitLookup(m, h - 1, 2 * i, j); } else { SplitLookup(m, h - 1, 2 * i + 1, j - q); }
    }
  }
}
