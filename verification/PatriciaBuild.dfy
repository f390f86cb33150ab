/**
 The layer-by-layer construction of a Patricia tree from all its leaves
 (src/starkware/cairo/common/patricia_utils.py, compute_patricia_from_leaves_for_test), and the
 decoding of its nodes from their preimages.
 */
module PatriciaBuild {
  import opened Common
  import opened PatriciaEncoding

  /** The next layer: the inner loop over the pairs of a layer. */
  function JoinPairs(H: Hash, layer: seq<Triplet>): (r: seq<Triplet>)
    ensures |r| == |layer| / 2
  {
    if |layer| < 2 then [] else [Join(H, layer[0], layer[1])] + JoinPairs(H, layer[2..])
  }

  function LeafNodes(leaves: seq<int>): (r: seq<Triplet>)
    ensures |r| == |leaves|
  {
    if leaves == [] then [] else [Triplet(0, 0, leaves[0])] + LeafNodes(leaves[1..])
  }

  /** The layer at height `t`. */
  function Layer(H: Hash, leaves: seq<int>, t: nat): seq<Triplet> {
    if t == 0 then LeafNodes(leaves) else JoinPairs(H, Layer(H, leaves, t - 1))
  }

  lemma {:induction false} LayerSize(H: Hash, leaves: seq<int>, t: nat, h: nat)
    requires |leaves| == Pow2(h) && t <= h
    ensures |Layer(H, leaves, t)| == Pow2(h - t)
  {
    if t > 0 { LayerSize(H, leaves, t - 1, h); }
  }

  lemma {:induction false} JoinPairsConcat(H: Hash, a: seq<Triplet>, b: seq<Triplet>)
    requires |a| % 2 == 0
    ensures JoinPairs(H, a + b) == JoinPairs(H, a) + JoinPairs(H, b)
  {
    if a == [] {
      assert a + b == b;
    } else {
      var x, y, rest := a[0], a[1], a[2..];
      assert a == [x, y] + rest && a + b == [x, y] + (rest + b);
      JoinPairsConcat(H, rest, b);
      FirstPair(H, x, y, rest);
      FirstPair(H, x, y, rest + b);
    }
  }

  lemma FirstPair(H: Hash, x: Triplet, y: Triplet, rest: seq<Triplet>)
    ensures JoinPairs(H, [x, y] + rest) == [Join(H, x, y)] + JoinPairs(H, rest)
  {
    assert ([x, y] + rest)[2..] == rest;
  }

  lemma {:induction false} LeafNodesConcat(a: seq<int>, b: seq<int>)
    ensures LeafNodes(a + b) == LeafNodes(a) + LeafNodes(b)
  {
    if a == [] {
      assert a + b == b;
    } else {
      assert (a + b)[1..] == a[1..] + b;
      LeafNodesConcat(a[1..], b);
    }
  }

  lemma {:induction false} LayerConcat(H: Hash, a: seq<int>, b: seq<int>, t: nat, h: nat)
    requires |a| == |b| == Pow2(h) && t <= h
    ensures Layer(H, a + b, t) == Layer(H, a, t) + Layer(H, b, t)
  {
    if t > 0 {
      LayerConcat(H, a, b, t - 1, h);
      LayerSize(H, a, t - 1, h);
      JoinPairsConcat(H, Layer(H, a, t - 1), Layer(H, b, t - 1));
    } else {
      LeafNodesConcat(a, b);
    }
  }

  function Half(leaves: seq<int>, h: nat, right: bool): (r: seq<int>)
    requires |leaves| == Pow2(h) && h > 0
    ensures |r| == Pow2(h - 1)
  {
    if right then RightHalf(leaves, h) else LeftHalf(leaves, h)
  }

  /** The leaves below the node reached by a path. */
  function Under(leaves: seq<int>, h: nat, bits: seq<bool>): (r: seq<int>)
    requires |leaves| == Pow2(h) && |bits| <= h
    ensures |r| == Pow2(h - |bits|)
    decreases |bits|
  {
    if bits == [] then leaves
    else Under(Half(leaves, h, bits[0]), h - 1, bits[1..])
  }

  /** The top layer is the encoding of the leaves alone. */
  lemma {:induction false} TopLayer(H: Hash, leaves: seq<int>, h: nat)
    requires |leaves| == Pow2(h)
    ensures Layer(H, leaves, h) == [Encode(H, leaves, h)]
    decreases h
  {
    if h == 0 {
      assert leaves[1..] == [];
    } else {
      var l, r := LeftHalf(leaves, h), RightHalf(leaves, h);
      var el, er := Encode(H, l, h - 1), Encode(H, r, h - 1);
      assert Encode(H, leaves, h) == Join(H, el, er);
      assert Layer(H, l, h - 1) == [el] by { TopLayer(H, l, h - 1); }
      assert Layer(H, r, h - 1) == [er] by { TopLayer(H, r, h - 1); }
      TopTwo(H, leaves, l, r, el, er, h);
    }
  }

  lemma TopTwo(H: Hash, leaves: seq<int>, l: seq<int>, r: seq<int>, el: Triplet, er: Triplet, h: nat)
    requires h > 0 && |l| == |r| == Pow2(h - 1) && leaves == l + r
    requires Layer(H, l, h - 1) == [el] && Layer(H, r, h - 1) == [er]
    ensures Layer(H, leaves, h) == [Join(H, el, er)]
  {
    LayerConcat(H, l, r, h - 1, h - 1);
    JoinTwo(H, el, er);
  }

  lemma JoinTwo(H: Hash, a: Triplet, b: Triplet)
    ensures JoinPairs(H, [a] + [b]) == [Join(H, a, b)]
  {
    assert ([a] + [b])[2..] == [];
  }

  lemma LayerOfHalf(H: Hash, leaves: seq<int>, h: nat, t: nat, right: bool, j: nat)
    requires |leaves| == Pow2(h) && t < h && j < Pow2(h - 1 - t)
    ensures var half := Half(leaves, h, right);
      var i := (if right then Pow2(h - 1 - t) else 0) + j;
      i < |Layer(H, leaves, t)| && j < |Layer(H, half, t)| && Layer(H, leaves, t)[i] == Layer(H, half, t)[j]
  {
    var l, r := LeftHalf(leaves, h), RightHalf(leaves, h);
    assert leaves == l + r;
    LayerConcat(H, l, r, t, h - 1);
    LayerSize(H, l, t, h - 1);
    LayerSize(H, r, t, h - 1);
  }

  /** Entry `i` of the layer at height `t`. */
  ghost predicate LayerHas(H: Hash, leaves: seq<int>, t: nat, i: nat, e: Triplet) {
    i < |Layer(H, leaves, t)| && Layer(H, leaves, t)[i] == e
  }

  lemma LayerUp(H: Hash, leaves: seq<int>, h: nat, t: nat, bits: seq<bool>, e: Triplet)
    requires |leaves| == Pow2(h) && bits != [] && t + |bits| == h && LayerHas(H, Half(leaves, h, bits[0]), t, Num(bits[1..]), e)
    ensures LayerHas(H, leaves, t, Num(bits), e)
  {
    LayerOfHalf(H, leaves, h, t, bits[0], Num(bits[1..]));
  }

  /** The node in the layer at the number of a path is the encoding of the leaves below it. */
  lemma {:induction false} LayerAt(H: Hash, leaves: seq<int>, h: nat, bits: seq<bool>)
    requires |leaves| == Pow2(h) && |bits| <= h
    ensures LayerHas(H, leaves, h - |bits|, Num(bits), Encode(H, Under(leaves, h, bits), h - |bits|))
    decreases |bits|
  {
    if bits == [] {
      TopLayer(H, leaves, h);
    } else {
      LayerAt(H, Half(leaves, h, bits[0]), h - 1, bits[1..]);
      LayerUp(H, leaves, h, h - |bits|, bits, Encode(H, Under(leaves, h, bits), h - |bits|));
    }
  }

  // ---------------------------------------------------------------------------
  // The two dictionaries that the construction fills
  // ---------------------------------------------------------------------------

  function Sibling(i: nat): nat { if i % 2 == 0 then i + 1 else i - 1 }

  /** The node is an edge whose hash is taken: it is the root, or its sibling is not empty. */
  ghost predicate HashedEdge(H: Hash, leaves: seq<int>, h: nat, t: nat, i: nat) {
    var layer := Layer(H, leaves, t);
    && t <= h && i < |layer| && layer[i].length > 0
    && (t == h || (Sibling(i) < |layer| && layer[Sibling(i)] != EMPTY))
  }

  function AsFact(e: Triplet): NodeFact { EdgeFact(e.bottom, e.path, e.length) }

  ghost predicate IsHashedEdge(H: Hash, leaves: seq<int>, h: nat, k: int, f: NodeFact) {
    exists t: nat, i: nat {:trigger HashedEdge(H, leaves, h, t, i)} :: HashedEdge(H, leaves, h, t, i)
      && f == AsFact(Layer(H, leaves, t)[i]) && k == HashNode(H, Layer(H, leaves, t)[i])
  }

  /** The preimages recorded once the layers below `top`, and `upto` nodes of that layer, have been
      hashed: only hashed edges of the tree, under their hashes, and all of those passed. */
  ghost predicate Recorded(H: Hash, leaves: seq<int>, h: nat, top: nat, upto: nat, preimage: Preimages) {
    && (forall k :: k in preimage ==> IsHashedEdge(H, leaves, h, k, preimage[k]))
    && (forall t: nat, i: nat {:trigger HashedEdge(H, leaves, h, t, i)} :: HashedEdge(H, leaves, h, t, i) && (t < top || (t == top && i < upto)) ==>
          HashNode(H, Layer(H, leaves, t)[i]) in preimage)
  }

  /** The side effect of `hash_node` on the dictionary. */
  function Record(H: Hash, e: Triplet, preimage: Preimages): Preimages {
    if e.length == 0 then preimage else preimage[HashNode(H, e) := AsFact(e)]
  }

  function RecordPair(H: Hash, l: Triplet, r: Triplet, preimage: Preimages): Preimages {
    if l == EMPTY || r == EMPTY then preimage else Record(H, r, Record(H, l, preimage))
  }

  lemma RecordEdge(H: Hash, leaves: seq<int>, h: nat, t: nat, i: nat, preimage: Preimages)
    requires i < |Layer(H, leaves, t)| && (Layer(H, leaves, t)[i].length > 0 ==> HashedEdge(H, leaves, h, t, i))
    requires Recorded(H, leaves, h, t, i, preimage)
    ensures Recorded(H, leaves, h, t, i + 1, Record(H, Layer(H, leaves, t)[i], preimage))
  {
    var e := Layer(H, leaves, t)[i];
    var p := Record(H, e, preimage);
    forall k | k in p ensures IsHashedEdge(H, leaves, h, k, p[k]) {
      if e.length > 0 && k == HashNode(H, e) { assert HashedEdge(H, leaves, h, t, i); }
    }
  }

  lemma PairRecorded(H: Hash, leaves: seq<int>, h: nat, t: nat, j: nat, preimage: Preimages)
    requires t < h && 2 * j + 1 < |Layer(H, leaves, t)| && Recorded(H, leaves, h, t, 2 * j, preimage)
    ensures Recorded(H, leaves, h, t, 2 * j + 2, RecordPair(H, Layer(H, leaves, t)[2 * j], Layer(H, leaves, t)[2 * j + 1], preimage))
  {
    var l, r := Layer(H, leaves, t)[2 * j], Layer(H, leaves, t)[2 * j + 1];
    assert Sibling(2 * j) == 2 * j + 1 && Sibling(2 * j + 1) == 2 * j;
    if l != EMPTY && r != EMPTY {
      RecordEdge(H, leaves, h, t, 2 * j, preimage);
      RecordEdge(H, leaves, h, t, 2 * j + 1, Record(H, l, preimage));
    } else {
      PairNotHashed(H, leaves, h, t, j);
    }
  }

  lemma PairNotHashed(H: Hash, leaves: seq<int>, h: nat, t: nat, j: nat)
    requires t < h && 2 * j + 1 < |Layer(H, leaves, t)|
    requires Layer(H, leaves, t)[2 * j] == EMPTY || Layer(H, leaves, t)[2 * j + 1] == EMPTY
    ensures !HashedEdge(H, leaves, h, t, 2 * j) && !HashedEdge(H, leaves, h, t, 2 * j + 1)
  {}

  datatype Built = Built(root: int, preimage: Preimages, nodeAtPath: map<(nat, nat), Triplet>)

  /** The dictionary holds exactly the nodes of the layers below `top`. */
  ghost predicate NodesBelow(H: Hash, leaves: seq<int>, top: nat, nodes: map<(nat, nat), Triplet>) {
    && (forall t: nat, i: nat {:trigger (t, i) in nodes} :: (t, i) in nodes <==> t < top && i < |Layer(H, leaves, t)|)
    && (forall t: nat, i: nat {:trigger nodes[(t, i)]} :: (t, i) in nodes ==> nodes[(t, i)] == Layer(H, leaves, t)[i])
  }

  function LayerDict(layer: seq<Triplet>, t: nat): map<(nat, nat), Triplet> {
    map i: nat | i < |layer| :: (t, i) := layer[i]
  }

  lemma LayerKeys(layer: seq<Triplet>, t: nat, t': nat, i: nat)
    ensures (t', i) in LayerDict(layer, t) <==> t' == t && i < |layer|
    ensures i < |layer| ==> LayerDict(layer, t)[(t, i)] == layer[i]
  {}

  lemma AddLayer(H: Hash, leaves: seq<int>, t: nat, nodes: map<(nat, nat), Triplet>)
    requires NodesBelow(H, leaves, t, nodes)
    ensures NodesBelow(H, leaves, t + 1, nodes + LayerDict(Layer(H, leaves, t), t))
  {
    var layer := Layer(H, leaves, t);
    var all := nodes + LayerDict(layer, t);
    forall t': nat, i: nat
      ensures (t', i) in all <==> t' < t + 1 && i < |Layer(H, leaves, t')|
      ensures (t', i) in all ==> all[(t', i)] == Layer(H, leaves, t')[i]
    {
      LayerKeys(layer, t, t', i);
    }
  }

  lemma {:induction false} JoinPairsAt(H: Hash, layer: seq<Triplet>, j: nat)
    requires 2 * j + 1 < |layer|
    ensures JoinPairs(H, layer)[j] == Join(H, layer[2 * j], layer[2 * j + 1])
    decreases j
  {
    if j > 0 { JoinPairsAt(H, layer[2..], j - 1); }
  }

  /** One iteration of the outer loop: the next layer, and the edges hashed on the way. */
  method NextLayer(H: Hash, ghost leaves: seq<int>, ghost h: nat, ghost t: nat, layer: seq<Triplet>, preimage: Preimages)
    returns (next: seq<Triplet>, p: Preimages)
    requires t < h && layer == Layer(H, leaves, t) && |layer| % 2 == 0 && Recorded(H, leaves, h, t, 0, preimage)
    ensures next == Layer(H, leaves, t + 1)
    ensures Recorded(H, leaves, h, t + 1, 0, p)
  {
    next, p := [], preimage;
    for j := 0 to |layer| / 2
      invariant next == JoinPairs(H, layer)[..j]
      invariant Recorded(H, leaves, h, t, 2 * j, p)
    {
      PairRecorded(H, leaves, h, t, j, p);
      p := RecordPair(H, layer[2 * j], layer[2 * j + 1], p);
      next := next + [Join(H, layer[2 * j], layer[2 * j + 1])];
      JoinPairsAt(H, layer, j);
    }
  }

  /** The outer loop, up to the top layer. */
  method BuildLayers(H: Hash, leaves: seq<int>, ghost h: nat)
    returns (layer: seq<Triplet>, preimage: Preimages, nodes: map<(nat, nat), Triplet>, height: nat)
    requires |leaves| == Pow2(h)
    ensures height == h && layer == Layer(H, leaves, h) && |layer| == 1
    ensures Recorded(H, leaves, h, h, 0, preimage) && NodesBelow(H, leaves, h, nodes)
  {
    layer, preimage, nodes, height := LeafNodes(leaves), map[], map[], 0;
    while |layer| > 1
      invariant height <= h && |layer| == Pow2(h - height)
      invariant layer == Layer(H, leaves, height)
      invariant Recorded(H, leaves, h, height, 0, preimage)
      invariant NodesBelow(H, leaves, height, nodes)
      decreases h - height
    {
      AddLayer(H, leaves, height, nodes);
      nodes := nodes + LayerDict(layer, height);
      layer, preimage := NextLayer(H, leaves, h, height, layer, preimage);
      height := height + 1;
      LayerSize(H, leaves, height, h);
    }
  }

  /** The construction fails exactly on a length that is not a power of two. Otherwise it gives the
      root of the recursive encoding, the node of every subtree, and the hashed edges. */
  method ComputePatricia(H: Hash, leaves: seq<int>) returns (r: Option<Built>, ghost h: nat)
    ensures r.Some? <==> exists k: nat :: |leaves| == Pow2(k)
    ensures r.Some? ==>
      && |leaves| == Pow2(h)
      && r.value.root == Root(H, leaves, h)
      && NodesBelow(H, leaves, h + 1, r.value.nodeAtPath)
      && Recorded(H, leaves, h, h + 1, 0, r.value.preimage)
  {
    h := 0;
    if !IsPowerOf2(|leaves|) {
      forall k: nat ensures |leaves| != Pow2(k) { Pow2IsPowerOf2(k); }
      return None, 0;
    }
    h := PowerOf2HasLog(|leaves|);
    var layer, preimage, nodes, height := BuildLayers(H, leaves, h);
    TopLayer(H, leaves, h);
    RecordTop(H, leaves, h, preimage);
    AddTop(H, leaves, h, nodes);
    r := Some(Built(HashNode(H, layer[0]), Record(H, layer[0], preimage), nodes[(height, 0) := layer[0]]));
  }

  lemma RecordTop(H: Hash, leaves: seq<int>, h: nat, preimage: Preimages)
    requires Recorded(H, leaves, h, h, 0, preimage) && |Layer(H, leaves, h)| == 1
    ensures Recorded(H, leaves, h, h + 1, 0, Record(H, Layer(H, leaves, h)[0], preimage))
  {
    RecordEdge(H, leaves, h, h, 0, preimage);
  }

  lemma AddTop(H: Hash, leaves: seq<int>, h: nat, nodes: map<(nat, nat), Triplet>)
    requires NodesBelow(H, leaves, h, nodes) && |Layer(H, leaves, h)| == 1
    ensures NodesBelow(H, leaves, h + 1, nodes[(h, 0) := Layer(H, leaves, h)[0]])
  {
    var all := nodes[(h, 0) := Layer(H, leaves, h)[0]];
    forall t: nat, i: nat
      ensures (t, i) in all <==> t < h + 1 && i < |Layer(H, leaves, t)|
      ensures (t, i) in all ==> all[(t, i)] == Layer(H, leaves, t)[i]
    {
      assert (t, i) in all <==> (t, i) in nodes || (t == h && i == 0);
    }
  }

  // ---------------------------------------------------------------------------
  // Decoding at every height and position
  // ---------------------------------------------------------------------------

  /** What is stored for the whole tree is stored for every subtree. */
  lemma {:induction false} StoredUnder(H: Hash, s: Preimages, leaves: seq<int>, h: nat, n: nat, bits: seq<bool>)
    requires CollisionFree(H, n) && h <= n && |bits| <= h
    requires |leaves| == Pow2(h) && StoredBelow(H, s, leaves, h)
    ensures StoredBelow(H, s, Under(leaves, h, bits), h - |bits|)
    decreases |bits|
  {
    if bits != [] {
      var half, rest := Half(leaves, h, bits[0]), bits[1..];
      StoredHalf(H, s, leaves, h, n, bits[0]);
      StoredUnder(H, s, half, h - 1, n, rest);
      assert Under(leaves, h, bits) == Under(half, h - 1, rest);
    }
  }

  lemma StoredHalf(H: Hash, s: Preimages, leaves: seq<int>, h: nat, n: nat, right: bool)
    requires CollisionFree(H, n) && 0 < h <= n && |leaves| == Pow2(h) && StoredBelow(H, s, leaves, h)
    ensures StoredBelow(H, s, Half(leaves, h, right), h - 1)
  {
    StoredHalves(H, s, leaves, h, n);
  }

  lemma {:induction false} UnderAppend(leaves: seq<int>, h: nat, bits: seq<bool>, b: bool)
    requires |leaves| == Pow2(h) && |bits| < h
    ensures Under(leaves, h, bits + [b]) == Half(Under(leaves, h, bits), h - |bits|, b)
    decreases |bits|
  {
    if bits == [] {
      assert bits + [b] == [b] && [b][1..] == [];
    } else {
      assert (bits + [b])[1..] == bits[1..] + [b];
      UnderAppend(Half(leaves, h, bits[0]), h - 1, bits[1..], b);
    }
  }

  /** `get_children` inverts the construction at every height and every position: from the node
      under a path it gives the nodes under the two longer paths. Over the leaves it does so
      exactly when neither leaf has the value of a recorded edge. */
  lemma GetChildrenEverywhere(H: Hash, s: Preimages, leaves: seq<int>, h: nat, n: nat, bits: seq<bool>)
    requires CollisionFree(H, n) && h <= n && WellKeyed(H, s, n)
    requires |leaves| == Pow2(h) && StoredBelow(H, s, leaves, h) && |bits| < h
    ensures var t := h - |bits|;
      var l, r := Under(leaves, h, bits + [false]), Under(leaves, h, bits + [true]);
      GetChildren(s, Encode(H, Under(leaves, h, bits), t)) == Some((Encode(H, l, t - 1), Encode(H, r, t - 1)))
      <==>
      !(t == 1 && l[0] != 0 && r[0] != 0 && (LeafReadsAsEdge(s, l[0]) || LeafReadsAsEdge(s, r[0])))
  {
    StoredUnder(H, s, leaves, h, n, bits);
    UnderAppend(leaves, h, bits, false);
    UnderAppend(leaves, h, bits, true);
    GetChildrenInvertsJoin(H, s, Under(leaves, h, bits), h - |bits|, n);
  }
}
