/**
 The compressed list of siblings of an update
 (src/starkware/cairo/common/patricia_utils.py, compute_siblings_from_tree).

 A descent of length L stands for L empty siblings in a row, written as the single element L.
 */
module PatriciaSiblings {
  import opened Common
  import opened PatriciaEncoding
  import opened PatriciaBuild
  import opened Descents
  import P = SiblingPaths
  import U = UpdateTree

  type NodeDict = map<(nat, nat), Triplet>

  function Zeros(n: nat): (r: seq<int>)
    ensures |r| == n
  {
    if n == 0 then [] else [0] + Zeros(n - 1)
  }

  function Cat(a: Option<seq<int>>, b: Option<seq<int>>): Option<seq<int>> {
    if a.Some? && b.Some? then Some(a.value + b.value) else None
  }

  function SiblingHash(H: Hash, nodes: NodeDict, k: (nat, nat)): Option<seq<int>> {
    if k in nodes then Some([HashNode(H, nodes[k])]) else None
  }

  /** `compute_siblings_from_tree`; None where an assertion or a lookup fails. */
  function Siblings(H: Hash, h: nat, node: Shape, nodes: NodeDict, dm: DescentMap, path: nat): Option<seq<int>>
    decreases h, 1
  {
    if !node.Pair? then (if h == 0 then Some([]) else None)
    else
      var res := Uncompressed(H, h, node, nodes, dm, path);
      if res.None? || (h, path) !in dm then res
      else
        var length := dm[(h, path)].0;
        if length <= |res.value| && res.value[..length] == Zeros(length) then Some([length] + res.value[length..]) else None
  }

  /** The list at a node before its own descent, if any, is compressed. */
  function Uncompressed(H: Hash, h: nat, node: Shape, nodes: NodeDict, dm: DescentMap, path: nat): Option<seq<int>>
    decreases h, 0
  {
    if !node.Pair? then (if h == 0 then Some([]) else None)
    else if h == 0 then None
    else if node.left.Hole? then
      Cat(SiblingHash(H, nodes, (h - 1, 2 * path)), Siblings(H, h - 1, node.right, nodes, dm, 2 * path + 1))
    else if node.right.Hole? then
      Cat(SiblingHash(H, nodes, (h - 1, 2 * path + 1)), Siblings(H, h - 1, node.left, nodes, dm, 2 * path))
    else
      Cat(Siblings(H, h - 1, node.left, nodes, dm, 2 * path), Siblings(H, h - 1, node.right, nodes, dm, 2 * path + 1))
  }

  const NO_DESCENTS: DescentMap := map[]

  /** The full list of siblings: nothing is compressed. */
  function FullSiblings(H: Hash, h: nat, node: Shape, nodes: NodeDict, path: nat): Option<seq<int>> {
    Siblings(H, h, node, nodes, NO_DESCENTS, path)
  }

  lemma FullUnfolds(H: Hash, h: nat, node: Shape, nodes: NodeDict, path: nat)
    ensures FullSiblings(H, h, node, nodes, path) == Uncompressed(H, h, node, nodes, NO_DESCENTS, path)
  {}

  /** Reads the full list of a node off the front of a compressed list, given the update tree and
      the descent map alone; `zeros` empty siblings are still due from a descent entered above.
      Gives the full list and what is left of the compressed one. */
  function Expand(h: nat, node: Shape, dm: DescentMap, path: nat, list: seq<int>, zeros: nat): Option<(seq<int>, seq<int>)>
    decreases h, if zeros == 0 then 1 else 0
  {
    if !node.Pair? then Some(([], list))
    else if h == 0 then None
    else if zeros == 0 && (h, path) in dm then
      if list == [] || list[0] <= 0 then None else Expand(h, node, dm, path, list[1..], list[0])
    else if !node.left.Hole? && !node.right.Hole? then
      var l := Expand(h - 1, node.left, dm, 2 * path, list, 0);
      if l.None? then None
      else
        var r := Expand(h - 1, node.right, dm, 2 * path + 1, l.value.1, 0);
        if r.None? then None else Some((l.value.0 + r.value.0, r.value.1))
    else
      var (child, p) := if node.left.Hole? then (node.right, 2 * path + 1) else (node.left, 2 * path);
      if zeros == 0 && list == [] then None
      else
        var (x, rest) := if zeros > 0 then (0, list) else (list[0], list[1..]);
        var r := Expand(h - 1, child, dm, p, rest, if zeros > 0 then zeros - 1 else 0);
        if r.None? then None else Some(([x] + r.value.0, r.value.1))
  }

  // ---------------------------------------------------------------------------
  // Compressing and expanding, node by node
  // ---------------------------------------------------------------------------

  /** The node has the compressed list `c` and the full list `f`, and `c` expands to `f`. */
  ghost predicate Good(H: Hash, h: nat, node: Shape, nodes: NodeDict, dm: DescentMap, p: nat, c: seq<int>, f: seq<int>) {
    && Siblings(H, h, node, nodes, dm, p) == Some(c)
    && FullSiblings(H, h, node, nodes, p) == Some(f)
    && forall tail :: Expand(h, node, dm, p, c + tail, 0) == Some((f, tail))
  }

  /** The same inside a descent with `z` steps to go. */
  ghost predicate GoodInside(H: Hash, h: nat, node: Shape, nodes: NodeDict, dm: DescentMap, p: nat, z: nat, c: seq<int>, f: seq<int>) {
    && Uncompressed(H, h, node, nodes, dm, p) == Some(Zeros(z) + c)
    && FullSiblings(H, h, node, nodes, p) == Some(Zeros(z) + f)
    && forall tail :: Expand(h, node, dm, p, c + tail, z) == Some((Zeros(z) + f, tail))
  }

  lemma OneChild(H: Hash, h: nat, node: Shape, nodes: NodeDict, dm: DescentMap, p: nat, right: bool, x: int, c: seq<int>, f: seq<int>)
    requires h > 0 && node.Pair? && Child(node, !right).Hole? && !Child(node, right).Hole? && (h, p) !in dm
    requires SiblingHash(H, nodes, (h - 1, 2 * p + (if right then 0 else 1))) == Some([x])
    requires Good(H, h - 1, Child(node, right), nodes, dm, 2 * p + (if right then 1 else 0), c, f)
    ensures Good(H, h, node, nodes, dm, p, [x] + c, [x] + f)
  {
    FullUnfolds(H, h, node, nodes, p);
    forall tail ensures Expand(h, node, dm, p, [x] + c + tail, 0) == Some(([x] + f, tail)) {
      var list := [x] + c + tail;
      assert list[0] == x && list[1..] == c + tail;
    }
  }

  lemma TwoChildren(H: Hash, h: nat, node: Shape, nodes: NodeDict, dm: DescentMap, p: nat,
                    lc: seq<int>, lf: seq<int>, rc: seq<int>, rf: seq<int>)
    requires h > 0 && node.Pair? && !node.left.Hole? && !node.right.Hole? && (h, p) !in dm
    requires Good(H, h - 1, node.left, nodes, dm, 2 * p, lc, lf)
    requires Good(H, h - 1, node.right, nodes, dm, 2 * p + 1, rc, rf)
    ensures Good(H, h, node, nodes, dm, p, lc + rc, lf + rf)
  {
    FullUnfolds(H, h, node, nodes, p);
    forall tail ensures Expand(h, node, dm, p, lc + rc + tail, 0) == Some((lf + rf, tail)) {
      assert lc + rc + tail == lc + (rc + tail);
    }
  }

  lemma DescentStep(H: Hash, h: nat, node: Shape, nodes: NodeDict, dm: DescentMap, p: nat, right: bool, z: nat, c: seq<int>, f: seq<int>)
    requires h > 0 && node.Pair? && Child(node, !right).Hole? && !Child(node, right).Hole?
    requires SiblingHash(H, nodes, (h - 1, 2 * p + (if right then 0 else 1))) == Some([0])
    requires (h - 1, 2 * p + (if right then 1 else 0)) !in dm
    requires GoodInside(H, h - 1, Child(node, right), nodes, dm, 2 * p + (if right then 1 else 0), z, c, f)
    ensures GoodInside(H, h, node, nodes, dm, p, z + 1, c, f)
  {
    FullUnfolds(H, h, node, nodes, p);
    var child, q := Child(node, right), 2 * p + (if right then 1 else 0);
    assert Siblings(H, h - 1, child, nodes, dm, q) == Uncompressed(H, h - 1, child, nodes, dm, q);
    assert Zeros(z + 1) == [0] + Zeros(z);
    assert [0] + (Zeros(z) + c) == Zeros(z + 1) + c;
    assert [0] + (Zeros(z) + f) == Zeros(z + 1) + f;
    forall tail ensures Expand(h, node, dm, p, c + tail, z + 1) == Some((Zeros(z + 1) + f, tail)) {
      assert Expand(h - 1, child, dm, q, c + tail, z) == Some((Zeros(z) + f, tail));
    }
  }

  /** Compressing a descent keeps the list readable. */
  lemma DescentStart(H: Hash, h: nat, node: Shape, nodes: NodeDict, dm: DescentMap, p: nat, z: nat, c: seq<int>, f: seq<int>)
    requires h > 0 && node.Pair? && z > 0 && (h, p) in dm && dm[(h, p)].0 == z
    requires GoodInside(H, h, node, nodes, dm, p, z, c, f)
    ensures Good(H, h, node, nodes, dm, p, [z] + c, Zeros(z) + f)
  {
    assert (Zeros(z) + c)[..z] == Zeros(z) && (Zeros(z) + c)[z..] == c;
    forall tail ensures Expand(h, node, dm, p, [z] + c + tail, 0) == Some((Zeros(z) + f, tail)) {
      var list := [z] + c + tail;
      assert list[0] == z && list[1..] == c + tail;
    }
  }

  lemma EndOfDescent(H: Hash, h: nat, node: Shape, nodes: NodeDict, dm: DescentMap, p: nat, c: seq<int>, f: seq<int>)
    requires (h, p) !in dm
    ensures Good(H, h, node, nodes, dm, p, c, f) <==> GoodInside(H, h, node, nodes, dm, p, 0, c, f)
  {
    assert Zeros(0) + c == c && Zeros(0) + f == f;
  }

  // ---------------------------------------------------------------------------
  // The shape of a Patricia tree, and the node dictionary of the same tree
  // ---------------------------------------------------------------------------

  /** The tree that `preimage_tree` opens for an array of leaves: empty subtrees are holes. */
  ghost function TreeShape(leaves: seq<int>, h: nat): Shape
    requires |leaves| == Pow2(h)
    decreases h
  {
    if h == 0 then Tip
    else
      var l, r := LeftHalf(leaves, h), RightHalf(leaves, h);
      Pair(if AllZero(l) then Hole else TreeShape(l, h - 1), if AllZero(r) then Hole else TreeShape(r, h - 1))
  }

  /** `preimage_tree`, opened all the way; None where a lookup fails. */
  function PreimageTree(s: Preimages, h: nat, node: Triplet): Option<Shape>
    decreases h
  {
    if h == 0 then Some(Tip)
    else
      var kids := GetChildren(s, node);
      if kids.None? then None
      else
        var l := if kids.value.0 == EMPTY then Some(Hole) else PreimageTree(s, h - 1, kids.value.0);
        var r := if kids.value.1 == EMPTY then Some(Hole) else PreimageTree(s, h - 1, kids.value.1);
        if l.None? || r.None? then None else Some(Pair(l.value, r.value))
  }

  /** Whatever a hash is taken for, it reads as the empty node exactly when it is 0. */
  lemma CanonicEmpty(H: Hash, s: Preimages, x: int, n: nat)
    requires CollisionFree(H, n) && WellKeyed(H, s, n)
    ensures Canonic(s, x) == EMPTY <==> x == 0
  {
    EmptyIsNoKey(H, s, n);
  }

  /** Opening a node over two leaves; a leaf taken for an edge still opens as a leaf. */
  lemma LeafPairIsShape(H: Hash, s: Preimages, leaves: seq<int>, n: nat)
    requires CollisionFree(H, n) && 1 <= n && WellKeyed(H, s, n) && |leaves| == 2 && StoredBelow(H, s, leaves, 1)
    ensures PreimageTree(s, 1, Encode(H, leaves, 1)) == Some(TreeShape(leaves, 1))
  {
    var l, r := LeftHalf(leaves, 1), RightHalf(leaves, 1);
    NodeCanonical(H, l, 0, n);
    NodeCanonical(H, r, 0, n);
    var el, er := Encode(H, l, 0), Encode(H, r, 0);
    if el != EMPTY && er != EMPTY {
      BinaryBottom(H, el, er, n);
      BinaryChildren(H, s, el, er);
      CanonicEmpty(H, s, l[0], n);
      CanonicEmpty(H, s, r[0], n);
    } else {
      EmptyIsNoKey(H, s, n);
      EdgeChildren(H, s, el, er);
    }
  }

  lemma ShapeUp(s: Preimages, leaves: seq<int>, h: nat, node: Triplet, el: Triplet, er: Triplet)
    requires h > 0 && |leaves| == Pow2(h) && GetChildren(s, node) == Some((el, er))
    requires el == EMPTY <==> AllZero(LeftHalf(leaves, h))
    requires er == EMPTY <==> AllZero(RightHalf(leaves, h))
    requires PreimageTree(s, h - 1, el) == Some(TreeShape(LeftHalf(leaves, h), h - 1))
    requires PreimageTree(s, h - 1, er) == Some(TreeShape(RightHalf(leaves, h), h - 1))
    ensures PreimageTree(s, h, node) == Some(TreeShape(leaves, h))
  {}

  /** Opening the root of a stored tree gives its shape. */
  lemma {:induction false} PreimageTreeIsShape(H: Hash, s: Preimages, leaves: seq<int>, h: nat, n: nat)
    requires CollisionFree(H, n) && h <= n && WellKeyed(H, s, n) && |leaves| == Pow2(h)
    requires StoredBelow(H, s, leaves, h)
    ensures PreimageTree(s, h, Encode(H, leaves, h)) == Some(TreeShape(leaves, h))
    decreases h
  {
    if h == 1 {
      LeafPairIsShape(H, s, leaves, n);
    } else if h > 1 {
      var l, r := LeftHalf(leaves, h), RightHalf(leaves, h);
      GetChildrenInvertsJoin(H, s, leaves, h, n);
      StoredHalves(H, s, leaves, h, n);
      PreimageTreeIsShape(H, s, l, h - 1, n);
      PreimageTreeIsShape(H, s, r, h - 1, n);
      EncodeEmpty(H, l, h - 1, n);
      EncodeEmpty(H, r, h - 1, n);
      ShapeUp(s, leaves, h, Encode(H, leaves, h), Encode(H, l, h - 1), Encode(H, r, h - 1));
    }
  }

  lemma EncodeEmpty(H: Hash, leaves: seq<int>, h: nat, n: nat)
    requires CollisionFree(H, n) && h <= n && |leaves| == Pow2(h)
    ensures Encode(H, leaves, h) == EMPTY <==> AllZero(leaves)
  {
    EncodeShape(H, leaves, h, n);
  }

  /** A subtree of the shape of a Patricia tree, possibly a hole, for these leaves. */
  ghost predicate Matches(t: Shape, leaves: seq<int>, h: nat)
    requires |leaves| == Pow2(h)
  {
    t == TreeShape(leaves, h) || (t.Hole? && AllZero(leaves))
  }

  lemma MatchesChild(t: Shape, leaves: seq<int>, h: nat, right: bool)
    requires 0 < h && |leaves| == Pow2(h) && Matches(t, leaves, h)
    ensures Matches(Child(t, right), Half(leaves, h, right), h - 1)
    ensures Child(t, right).Hole? ==> AllZero(Half(leaves, h, right))
  {
    AllZeroHalves(leaves, h);
  }

  /** The dictionary holds the nodes of the subtree of `leaves` at this place. */
  ghost predicate NodesHere(H: Hash, nodes: NodeDict, leaves: seq<int>, h: nat, p: nat)
    requires |leaves| == Pow2(h)
  {
    forall bits: seq<bool> {:trigger Under(leaves, h, bits)} :: |bits| <= h ==>
      Key(h, p, bits) in nodes && nodes[Key(h, p, bits)] == Encode(H, Under(leaves, h, bits), h - |bits|)
  }

  lemma NodeOfChild(H: Hash, nodes: NodeDict, leaves: seq<int>, h: nat, p: nat, right: bool, bits: seq<bool>)
    requires |leaves| == Pow2(h) && |bits| < h && NodesHere(H, nodes, leaves, h, p)
    ensures var half, k := Half(leaves, h, right), Key(h - 1, 2 * p + (if right then 1 else 0), bits);
      k in nodes && nodes[k] == Encode(H, Under(half, h - 1, bits), h - 1 - |bits|)
  {
    UnderChild(leaves, h, right, bits);
    KeyOfChild(h, p, right, bits);
    NodeHere(H, nodes, leaves, h, p, [right] + bits);
  }

  lemma NodeHere(H: Hash, nodes: NodeDict, leaves: seq<int>, h: nat, p: nat, bits: seq<bool>)
    requires |leaves| == Pow2(h) && |bits| <= h && NodesHere(H, nodes, leaves, h, p)
    ensures Key(h, p, bits) in nodes && nodes[Key(h, p, bits)] == Encode(H, Under(leaves, h, bits), h - |bits|)
  {
    var _ := Under(leaves, h, bits);
  }

  lemma UnderChild(leaves: seq<int>, h: nat, right: bool, bits: seq<bool>)
    requires |leaves| == Pow2(h) && |bits| < h
    ensures Under(leaves, h, [right] + bits) == Under(Half(leaves, h, right), h - 1, bits)
  {
    assert ([right] + bits)[1..] == bits;
  }

  lemma KeyOfChild(h: nat, p: nat, right: bool, bits: seq<bool>)
    requires |bits| < h
    ensures Key(h, p, [right] + bits) == Key(h - 1, 2 * p + (if right then 1 else 0), bits)
  {
    assert ([right] + bits)[1..] == bits;
  }

  lemma NodesOfChild(H: Hash, nodes: NodeDict, leaves: seq<int>, h: nat, p: nat, right: bool)
    requires |leaves| == Pow2(h) && h > 0 && NodesHere(H, nodes, leaves, h, p)
    ensures NodesHere(H, nodes, Half(leaves, h, right), h - 1, 2 * p + (if right then 1 else 0))
  {
    var half, q := Half(leaves, h, right), 2 * p + (if right then 1 else 0);
    forall bits: seq<bool> | |bits| <= h - 1
      ensures Key(h - 1, q, bits) in nodes && nodes[Key(h - 1, q, bits)] == Encode(H, Under(half, h - 1, bits), h - 1 - |bits|)
    {
      NodeOfChild(H, nodes, leaves, h, p, right, bits);
    }
  }

  lemma ChildNode(H: Hash, nodes: NodeDict, leaves: seq<int>, h: nat, p: nat, right: bool)
    requires |leaves| == Pow2(h) && h > 0 && NodesHere(H, nodes, leaves, h, p)
    ensures var k := (h - 1, 2 * p + (if right then 1 else 0));
      k in nodes && nodes[k] == Encode(H, Half(leaves, h, right), h - 1)
  {
    NodeOfChild(H, nodes, leaves, h, p, right, []);
  }

  /** The dictionary returned by the construction has all nodes of its tree. */
  lemma BuiltNodesHere(H: Hash, nodes: NodeDict, leaves: seq<int>, h: nat)
    requires |leaves| == Pow2(h) && NodesBelow(H, leaves, h + 1, nodes)
    ensures NodesHere(H, nodes, leaves, h, 0)
  {
    forall bits: seq<bool> | |bits| <= h
      ensures Key(h, 0, bits) in nodes && nodes[Key(h, 0, bits)] == Encode(H, Under(leaves, h, bits), h - |bits|)
    {
      LayerAt(H, leaves, h, bits);
      PathNumIs(0, bits);
      assert Key(h, 0, bits) == (h - |bits|, Num(bits));
    }
  }

  /** The sibling of a node on a descent is empty, so its hash is 0. */
  lemma EmptySibling(H: Hash, nodes: NodeDict, leaves: seq<int>, h: nat, p: nat, t: Shape, right: bool)
    requires |leaves| == Pow2(h) && h > 0 && NodesHere(H, nodes, leaves, h, p) && Matches(t, leaves, h)
    requires Child(t, !right).Hole?
    ensures SiblingHash(H, nodes, (h - 1, 2 * p + (if right then 0 else 1))) == Some([0])
  {
    ChildNode(H, nodes, leaves, h, p, !right);
    MatchesChild(t, leaves, h, !right);
    ZeroEncodes(H, Half(leaves, h, !right), h - 1);
  }

  // ---------------------------------------------------------------------------
  // The whole tree
  // ---------------------------------------------------------------------------

  /** The key is at or below the node at height `h` and number `p`. */
  ghost predicate BelowNode(k: (nat, nat), h: nat, p: nat) {
    k.0 <= h && Above(k.1, h - k.0) == p
  }

  /** At and below the node the descent map is what the search finds there. */
  ghost predicate FoundHere(dm: DescentMap, h: nat, p: nat, ts: seq<Shape>)
    requires |ts| > 0
  {
    forall k: (nat, nat) {:trigger k in dm} :: BelowNode(k, h, p) ==>
      && (k in dm <==> k in Search(h, p, ts))
      && (k in dm ==> dm[k] == Search(h, p, ts)[k])
  }

  /** Strictly below the node it is what the search finds below the end of its descent. */
  ghost predicate FoundBelow(dm: DescentMap, h: nat, p: nat, ts: seq<Shape>)
    requires |ts| > 0
  {
    forall k: (nat, nat) {:trigger k in dm} :: BelowNode(k, h, p) && k.0 < h ==>
      && (k in dm <==> k in SearchSide(h, p, ts, false) || k in SearchSide(h, p, ts, true))
      && (k in SearchSide(h, p, ts, false) ==> k in dm && dm[k] == SearchSide(h, p, ts, false)[k])
      && (k in SearchSide(h, p, ts, true) ==> k in dm && dm[k] == SearchSide(h, p, ts, true)[k])
  }

  lemma HereToBelow(dm: DescentMap, h: nat, p: nat, ts: seq<Shape>)
    requires |ts| > 0 && !ts[0].Hole? && FoundHere(dm, h, p, ts)
    ensures FoundBelow(dm, h, p, ts)
    ensures (h, p) in dm <==> |Walk(h, ts)| > 1
    ensures (h, p) in dm ==> dm[(h, p)].0 == |Walk(h, ts)|
  {
    assert BelowNode((h, p), h, p);
    if |Walk(h, ts)| > 1 { OwnFound(h, p, ts); }
    if (h, p) in Search(h, p, ts) { SearchKeys(h, p, ts, (h, p)); }
    forall k: (nat, nat) | BelowNode(k, h, p) && k.0 < h
      ensures (k in dm <==> k in SearchSide(h, p, ts, false) || k in SearchSide(h, p, ts, true))
      ensures (k in SearchSide(h, p, ts, false) ==> k in dm && dm[k] == SearchSide(h, p, ts, false)[k])
      ensures (k in SearchSide(h, p, ts, true) ==> k in dm && dm[k] == SearchSide(h, p, ts, true)[k])
    {
      if k in SearchSide(h, p, ts, false) { SideFound(h, p, ts, k, false); }
      if k in SearchSide(h, p, ts, true) { SideFound(h, p, ts, k, true); }
    }
  }

  lemma BelowChild(k: (nat, nat), h: nat, p: nat, right: bool)
    requires h > 0 && BelowNode(k, h - 1, 2 * p + (if right then 1 else 0))
    ensures BelowNode(k, h, p)
  {}

  lemma {:induction false} SideOfStep(h: nat, p: nat, ts: seq<Shape>, b: bool, right: bool)
    requires |ts| > 0 && h > 0 && Walk(h, ts) == [b] + Walk(h - 1, Step(ts, b))
    ensures SearchSide(h, p, ts, right) == SearchSide(h - 1, 2 * p + (if b then 1 else 0), Step(ts, b), right)
  {
    var w := Walk(h, ts);
    assert w[0] == b && w[1..] == Walk(h - 1, Step(ts, b));
    assert PathNum(p, w) == PathNum(2 * p + (if b then 1 else 0), w[1..]);
    assert At(ts, w) == At(Step(ts, b), w[1..]);
  }

  lemma NothingOnPath(dm: DescentMap, h: nat, p: nat, ts: seq<Shape>, q: nat)
    requires |ts| > 0 && h > 0 && Walk(h, ts) != [] && FoundBelow(dm, h, p, ts) && q / 2 == p
    ensures (h - 1, q) !in dm
  {
    var k := (h - 1, q);
    assert Above(q, 0) == q && Above(q, 1) == p && BelowNode(k, h, p);
    if k in SearchSide(h, p, ts, false) { SideKeys(h, p, ts, k, false); }
    if k in SearchSide(h, p, ts, true) { SideKeys(h, p, ts, k, true); }
  }

  /** One step down a descent: nothing is recorded at the next node, and below it the same
      searches are left. */
  lemma BelowOneStep(dm: DescentMap, h: nat, p: nat, ts: seq<Shape>, b: bool)
    requires |ts| > 0 && h > 0 && Walk(h, ts) == [b] + Walk(h - 1, Step(ts, b)) && FoundBelow(dm, h, p, ts)
    ensures var q := 2 * p + (if b then 1 else 0);
      (h - 1, q) !in dm && FoundBelow(dm, h - 1, q, Step(ts, b))
  {
    var q := 2 * p + (if b then 1 else 0);
    NothingOnPath(dm, h, p, ts, q);
    SideOfStep(h, p, ts, b, false);
    SideOfStep(h, p, ts, b, true);
    forall k: (nat, nat) | BelowNode(k, h - 1, q) ensures BelowNode(k, h, p) { BelowChild(k, h, p, b); }
  }

  /** Where the descent ends the searches of the two children are left. */
  lemma BelowEnd(dm: DescentMap, h: nat, p: nat, ts: seq<Shape>, right: bool)
    requires |ts| > 0 && h > 0 && Walk(h, ts) == [] && FoundBelow(dm, h, p, ts)
    ensures FoundHere(dm, h - 1, 2 * p + (if right then 1 else 0), Step(ts, right))
  {
    var q := 2 * p + (if right then 1 else 0);
    assert SearchSide(h, p, ts, right) == Search(h - 1, q, Step(ts, right));
    forall k: (nat, nat) | BelowNode(k, h - 1, q)
      ensures (k in dm <==> k in Search(h - 1, q, Step(ts, right))) && (k in dm ==> dm[k] == Search(h - 1, q, Step(ts, right))[k])
    {
      BelowEndAt(dm, h, p, ts, right, k);
    }
  }

  lemma BelowEndAt(dm: DescentMap, h: nat, p: nat, ts: seq<Shape>, right: bool, k: (nat, nat))
    requires |ts| > 0 && h > 0 && Walk(h, ts) == [] && FoundBelow(dm, h, p, ts)
    requires BelowNode(k, h - 1, 2 * p + (if right then 1 else 0))
    ensures var side := SearchSide(h, p, ts, right); (k in dm <==> k in side) && (k in dm ==> dm[k] == side[k])
  {
    BelowChild(k, h, p, right);
    if k in SearchSide(h, p, ts, !right) { SideKeys(h, p, ts, k, !right); }
  }

  /** Everything the induction carries: the trees from here down, the leaves of tree `j` among
      them, and the dictionary of its nodes. */
  ghost predicate Scene(H: Hash, h: nat, p: nat, ts: seq<Shape>, j: nat, leaves: seq<int>, nodes: NodeDict) {
    && Trees(ts, h) && !ts[0].Hole? && j < |ts| && |leaves| == Pow2(h)
    && Matches(ts[j], leaves, h) && NodesHere(H, nodes, leaves, h, p)
  }

  lemma SceneStep(H: Hash, h: nat, p: nat, ts: seq<Shape>, j: nat, leaves: seq<int>, nodes: NodeDict, right: bool)
    requires Scene(H, h, p, ts, j, leaves, nodes) && h > 0 && !Child(ts[0], right).Hole?
    ensures Scene(H, h - 1, 2 * p + (if right then 1 else 0), Step(ts, right), j, Half(leaves, h, right), nodes)
  {
    StepTrees(ts, h, right);
    MatchesChild(ts[j], leaves, h, right);
    NodesOfChild(H, nodes, leaves, h, p, right);
  }

  lemma SiblingKnown(H: Hash, h: nat, p: nat, ts: seq<Shape>, j: nat, leaves: seq<int>, nodes: NodeDict, right: bool) returns (x: int)
    requires Scene(H, h, p, ts, j, leaves, nodes) && h > 0
    ensures SiblingHash(H, nodes, (h - 1, 2 * p + (if right then 0 else 1))) == Some([x])
    ensures AllHole(Step(ts, !right)) ==> x == 0
  {
    ChildNode(H, nodes, leaves, h, p, !right);
    x := HashNode(H, nodes[(h - 1, 2 * p + (if right then 0 else 1))]);
    if AllHole(Step(ts, !right)) {
      assert Step(ts, !right)[j].Hole?;
      EmptySibling(H, nodes, leaves, h, p, ts[j], right);
    }
  }

  /** A node where a search starts. */
  lemma {:induction false} StartGood(H: Hash, h: nat, p: nat, ts: seq<Shape>, j: nat, leaves: seq<int>, nodes: NodeDict, dm: DescentMap)
    returns (c: seq<int>, f: seq<int>)
    requires Scene(H, h, p, ts, j, leaves, nodes) && FoundHere(dm, h, p, ts)
    ensures Good(H, h, ts[0], nodes, dm, p, c, f)
    decreases h, 2
  {
    HereToBelow(dm, h, p, ts);
    var w := Walk(h, ts);
    if |w| == 0 {
      c, f := EndGood(H, h, p, ts, j, leaves, nodes, dm);
    } else if |w| == 1 {
      c, f := ShortGood(H, h, p, ts, j, leaves, nodes, dm);
    } else {
      var c0, f0 := InsideGood(H, h, p, ts, j, leaves, nodes, dm);
      DescentStart(H, h, ts[0], nodes, dm, p, |w|, c0, f0);
      c, f := [|w|] + c0, Zeros(|w|) + f0;
    }
  }

  /** A single step is not compressed. */
  lemma {:induction false} ShortGood(H: Hash, h: nat, p: nat, ts: seq<Shape>, j: nat, leaves: seq<int>, nodes: NodeDict, dm: DescentMap)
    returns (c: seq<int>, f: seq<int>)
    requires Scene(H, h, p, ts, j, leaves, nodes) && FoundBelow(dm, h, p, ts) && |Walk(h, ts)| == 1 && (h, p) !in dm
    ensures Good(H, h, ts[0], nodes, dm, p, c, f)
    decreases h, 1
  {
    var b := Walk(h, ts)[0];
    assert Walk(h, ts) == [b] + Walk(h - 1, Step(ts, b));
    FirstGoesOn(ts, h, b);
    SceneStep(H, h, p, ts, j, leaves, nodes, b);
    BelowOneStep(dm, h, p, ts, b);
    var x := SiblingKnown(H, h, p, ts, j, leaves, nodes, b);
    var c0, f0 := EndGood(H, h - 1, 2 * p + (if b then 1 else 0), Step(ts, b), j, Half(leaves, h, b), nodes, dm);
    assert Step(ts, !b)[0].Hole?;
    OneChild(H, h, ts[0], nodes, dm, p, b, x, c0, f0);
    c, f := [x] + c0, [x] + f0;
  }

  /** A node inside a descent: the rest of the descent is a row of zeros. */
  lemma {:induction false} InsideGood(H: Hash, h: nat, p: nat, ts: seq<Shape>, j: nat, leaves: seq<int>, nodes: NodeDict, dm: DescentMap)
    returns (c: seq<int>, f: seq<int>)
    requires Scene(H, h, p, ts, j, leaves, nodes) && FoundBelow(dm, h, p, ts)
    requires Walk(h, ts) == [] ==> (h, p) !in dm
    ensures GoodInside(H, h, ts[0], nodes, dm, p, |Walk(h, ts)|, c, f)
    decreases h, 1
  {
    var w := Walk(h, ts);
    if w == [] {
      c, f := EndGood(H, h, p, ts, j, leaves, nodes, dm);
      EndOfDescent(H, h, ts[0], nodes, dm, p, c, f);
    } else {
      var b := w[0];
      c, f := InsideStep(H, h, p, ts, j, leaves, nodes, dm, b);
      var x := SiblingKnown(H, h, p, ts, j, leaves, nodes, b);
      DescentStep(H, h, ts[0], nodes, dm, p, b, |w| - 1, c, f);
    }
  }

  /** One step along the descent. */
  lemma {:induction false} InsideStep(H: Hash, h: nat, p: nat, ts: seq<Shape>, j: nat, leaves: seq<int>, nodes: NodeDict, dm: DescentMap, b: bool)
    returns (c: seq<int>, f: seq<int>)
    requires Scene(H, h, p, ts, j, leaves, nodes) && FoundBelow(dm, h, p, ts)
    requires Walk(h, ts) != [] && b == Walk(h, ts)[0]
    ensures h > 0 && !Child(ts[0], b).Hole? && Child(ts[0], !b).Hole?
    ensures (h - 1, 2 * p + (if b then 1 else 0)) !in dm
    ensures GoodInside(H, h - 1, Child(ts[0], b), nodes, dm, 2 * p + (if b then 1 else 0), |Walk(h, ts)| - 1, c, f)
    decreases h, 0
  {
    assert Walk(h, ts) == [b] + Walk(h - 1, Step(ts, b));
    FirstGoesOn(ts, h, b);
    SceneStep(H, h, p, ts, j, leaves, nodes, b);
    BelowOneStep(dm, h, p, ts, b);
    var q := 2 * p + (if b then 1 else 0);
    assert (h - 1, q) !in dm;
    c, f := InsideGood(H, h - 1, q, Step(ts, b), j, Half(leaves, h, b), nodes, dm);
    assert Step(ts, !b)[0].Hole?;
  }

  /** A leaf, or a node where the trees branch. */
  lemma {:induction false} EndGood(H: Hash, h: nat, p: nat, ts: seq<Shape>, j: nat, leaves: seq<int>, nodes: NodeDict, dm: DescentMap)
    returns (c: seq<int>, f: seq<int>)
    requires Scene(H, h, p, ts, j, leaves, nodes) && FoundBelow(dm, h, p, ts) && Walk(h, ts) == [] && (h, p) !in dm
    ensures Good(H, h, ts[0], nodes, dm, p, c, f)
    decreases h, 0
  {
    if h == 0 {
      c, f := [], [];
      assert forall tail: seq<int> :: [] + tail == tail;
    } else {
      var node := ts[0];
      var lc, lf, rc, rf := [], [], [], [];
      if !node.left.Hole? { lc, lf := SideGood(H, h, p, ts, j, leaves, nodes, dm, false); }
      if !node.right.Hole? { rc, rf := SideGood(H, h, p, ts, j, leaves, nodes, dm, true); }
      if !node.left.Hole? && !node.right.Hole? {
        TwoChildren(H, h, node, nodes, dm, p, lc, lf, rc, rf);
        c, f := lc + rc, lf + rf;
      } else {
        var right := node.left.Hole?;
        var x := SiblingKnown(H, h, p, ts, j, leaves, nodes, right);
        OneChild(H, h, node, nodes, dm, p, right, x, if right then rc else lc, if right then rf else lf);
        c, f := [x] + (if right then rc else lc), [x] + (if right then rf else lf);
      }
    }
  }

  lemma {:induction false} SideGood(H: Hash, h: nat, p: nat, ts: seq<Shape>, j: nat, leaves: seq<int>, nodes: NodeDict, dm: DescentMap, right: bool)
    returns (c: seq<int>, f: seq<int>)
    requires Scene(H, h, p, ts, j, leaves, nodes) && FoundBelow(dm, h, p, ts) && Walk(h, ts) == [] && h > 0
    requires !Child(ts[0], right).Hole?
    ensures Good(H, h - 1, Child(ts[0], right), nodes, dm, 2 * p + (if right then 1 else 0), c, f)
    decreases h - 1, 3
  {
    SceneStep(H, h, p, ts, j, leaves, nodes, right);
    BelowEnd(dm, h, p, ts, right);
    c, f := StartGood(H, h - 1, 2 * p + (if right then 1 else 0), Step(ts, right), j, Half(leaves, h, right), nodes, dm);
  }

  // ---------------------------------------------------------------------------
  // What the full list holds
  // ---------------------------------------------------------------------------

  /** `f` lists the roots of the subtrees at the ends of the paths. */
  ghost predicate ListsRoots(H: Hash, leaves: seq<int>, h: nat, paths: seq<seq<bool>>, f: seq<int>)
    requires |leaves| == Pow2(h)
  {
    |f| == |paths| && forall i :: 0 <= i < |f| ==> IsRootAt(H, leaves, h, paths[i], f[i])
  }

  ghost predicate IsRootAt(H: Hash, leaves: seq<int>, h: nat, bits: seq<bool>, x: int)
    requires |leaves| == Pow2(h)
  {
    |bits| <= h && x == Root(H, Under(leaves, h, bits), h - |bits|)
  }

  lemma {:induction false} RootsOfChild(H: Hash, leaves: seq<int>, h: nat, right: bool, paths: seq<seq<bool>>, f: seq<int>)
    requires |leaves| == Pow2(h) && h > 0 && ListsRoots(H, Half(leaves, h, right), h - 1, paths, f)
    ensures ListsRoots(H, leaves, h, P.Prefixed(right, paths), f)
  {
    forall i | 0 <= i < |f| ensures IsRootAt(H, leaves, h, P.Prefixed(right, paths)[i], f[i]) {
      P.PrefixedAt(right, paths, i);
      assert IsRootAt(H, Half(leaves, h, right), h - 1, paths[i], f[i]);
      UnderChild(leaves, h, right, paths[i]);
    }
  }

  lemma RootOfSide(H: Hash, nodes: NodeDict, leaves: seq<int>, h: nat, p: nat, right: bool) returns (x: int)
    requires |leaves| == Pow2(h) && h > 0 && NodesHere(H, nodes, leaves, h, p)
    ensures SiblingHash(H, nodes, (h - 1, 2 * p + (if right then 1 else 0))) == Some([x])
    ensures IsRootAt(H, leaves, h, [right], x)
  {
    ChildNode(H, nodes, leaves, h, p, right);
    UnderChild(leaves, h, right, []);
    assert [right] + [] == [right];
    x := Root(H, Half(leaves, h, right), h - 1);
  }

  lemma {:induction false} RootsConcat(H: Hash, leaves: seq<int>, h: nat, a: seq<seq<bool>>, f: seq<int>, b: seq<seq<bool>>, g: seq<int>)
    requires |leaves| == Pow2(h) && ListsRoots(H, leaves, h, a, f) && ListsRoots(H, leaves, h, b, g)
    ensures ListsRoots(H, leaves, h, a + b, f + g)
  {}

  /** The full list holds the roots of the untraversed siblings, in their order. */
  lemma {:induction false} FullIs(H: Hash, h: nat, node: Shape, leaves: seq<int>, nodes: NodeDict, p: nat) returns (f: seq<int>)
    requires WellShaped(node, h) && !node.Hole? && |leaves| == Pow2(h) && NodesHere(H, nodes, leaves, h, p)
    ensures FullSiblings(H, h, node, nodes, p) == Some(f) && ListsRoots(H, leaves, h, P.Paths(node), f)
    decreases h, 0
  {
    if h == 0 {
      f := [];
    } else if node.left.Hole? || node.right.Hole? {
      f := FullOneSide(H, h, node, leaves, nodes, p, node.left.Hole?);
    } else {
      f := FullTwoSides(H, h, node, leaves, nodes, p);
    }
  }

  lemma {:induction false} FullSide(H: Hash, h: nat, node: Shape, leaves: seq<int>, nodes: NodeDict, p: nat, right: bool) returns (f: seq<int>)
    requires h > 0 && WellShaped(node, h) && node.Pair? && !Child(node, right).Hole?
    requires |leaves| == Pow2(h) && NodesHere(H, nodes, leaves, h, p)
    ensures FullSiblings(H, h - 1, Child(node, right), nodes, 2 * p + (if right then 1 else 0)) == Some(f)
    ensures ListsRoots(H, Half(leaves, h, right), h - 1, P.Paths(Child(node, right)), f)
    decreases h - 1, 1
  {
    NodesOfChild(H, nodes, leaves, h, p, right);
    f := FullIs(H, h - 1, Child(node, right), Half(leaves, h, right), nodes, 2 * p + (if right then 1 else 0));
  }

  lemma {:induction false} TwoSidesList(H: Hash, h: nat, node: Shape, nodes: NodeDict, p: nat, l: seq<int>, r: seq<int>)
    requires h > 0 && node.Pair? && !node.left.Hole? && !node.right.Hole?
    requires FullSiblings(H, h - 1, node.left, nodes, 2 * p) == Some(l) && FullSiblings(H, h - 1, node.right, nodes, 2 * p + 1) == Some(r)
    ensures FullSiblings(H, h, node, nodes, p) == Some(l + r)
  {
    FullUnfolds(H, h, node, nodes, p);
  }

  lemma {:induction false} TwoSidesRoots(H: Hash, leaves: seq<int>, h: nat, node: Shape, l: seq<int>, r: seq<int>)
    requires h > 0 && node.Pair? && !node.left.Hole? && !node.right.Hole? && |leaves| == Pow2(h)
    requires ListsRoots(H, Half(leaves, h, false), h - 1, P.Paths(node.left), l)
    requires ListsRoots(H, Half(leaves, h, true), h - 1, P.Paths(node.right), r)
    ensures ListsRoots(H, leaves, h, P.Paths(node), l + r)
  {
    RootsOfChild(H, leaves, h, false, P.Paths(node.left), l);
    RootsOfChild(H, leaves, h, true, P.Paths(node.right), r);
    RootsConcat(H, leaves, h, P.Prefixed(false, P.Paths(node.left)), l, P.Prefixed(true, P.Paths(node.right)), r);
  }

  lemma {:induction false} FullTwoSides(H: Hash, h: nat, node: Shape, leaves: seq<int>, nodes: NodeDict, p: nat) returns (f: seq<int>)
    requires h > 0 && WellShaped(node, h) && node.Pair? && !node.left.Hole? && !node.right.Hole?
    requires |leaves| == Pow2(h) && NodesHere(H, nodes, leaves, h, p)
    ensures FullSiblings(H, h, node, nodes, p) == Some(f) && ListsRoots(H, leaves, h, P.Paths(node), f)
    decreases h - 1, 2
  {
    var l := FullSide(H, h, node, leaves, nodes, p, false);
    var r := FullSide(H, h, node, leaves, nodes, p, true);
    TwoSidesList(H, h, node, nodes, p, l, r);
    TwoSidesRoots(H, leaves, h, node, l, r);
    f := l + r;
  }

  lemma {:induction false} OneSideList(H: Hash, h: nat, node: Shape, nodes: NodeDict, p: nat, right: bool, x: int, rest: seq<int>)
    requires h > 0 && node.Pair? && Child(node, !right).Hole? && right == node.left.Hole?
    requires SiblingHash(H, nodes, (h - 1, 2 * p + (if right then 0 else 1))) == Some([x])
    requires FullSiblings(H, h - 1, Child(node, right), nodes, 2 * p + (if right then 1 else 0)) == Some(rest)
    ensures FullSiblings(H, h, node, nodes, p) == Some([x] + rest)
  {
    FullUnfolds(H, h, node, nodes, p);
  }

  lemma {:induction false} OneSideRoots(H: Hash, leaves: seq<int>, h: nat, node: Shape, right: bool, x: int, rest: seq<int>)
    requires h > 0 && node.Pair? && Child(node, !right).Hole? && right == node.left.Hole? && |leaves| == Pow2(h)
    requires IsRootAt(H, leaves, h, [!right], x)
    requires ListsRoots(H, Half(leaves, h, right), h - 1, P.Paths(Child(node, right)), rest)
    ensures ListsRoots(H, leaves, h, P.Paths(node), [x] + rest)
  {
    RootsOfChild(H, leaves, h, right, P.Paths(Child(node, right)), rest);
    RootsConcat(H, leaves, h, [[!right]], [x], P.Prefixed(right, P.Paths(Child(node, right))), rest);
  }

  lemma {:induction false} FullOneSide(H: Hash, h: nat, node: Shape, leaves: seq<int>, nodes: NodeDict, p: nat, right: bool) returns (f: seq<int>)
    requires h > 0 && WellShaped(node, h) && node.Pair? && Child(node, !right).Hole? && right == node.left.Hole?
    requires |leaves| == Pow2(h) && NodesHere(H, nodes, leaves, h, p)
    ensures FullSiblings(H, h, node, nodes, p) == Some(f) && ListsRoots(H, leaves, h, P.Paths(node), f)
    decreases h - 1, 2
  {
    var x := RootOfSide(H, nodes, leaves, h, p, !right);
    var rest := FullSide(H, h, node, leaves, nodes, p, right);
    OneSideList(H, h, node, nodes, p, right, x, rest);
    OneSideRoots(H, leaves, h, node, right, x, rest);
    f := [x] + rest;
  }

  /** Main result: with the descent map of `get_descents` on an update tree, the tree of `leaves`
      and any further trees, the zero-prefix assertion never fails, and the compressed list, the
      update tree and the descent map together determine the full list, which holds the roots of
      the untraversed siblings. */
  lemma CompressedSiblings(H: Hash, h: nat, ts: seq<Shape>, j: nat, leaves: seq<int>, nodes: NodeDict)
    returns (c: seq<int>, f: seq<int>)
    requires Trees(ts, h) && !ts[0].Hole? && j < |ts| && |leaves| == Pow2(h)
    requires ts[j] == TreeShape(leaves, h) && NodesBelow(H, leaves, h + 1, nodes)
    ensures var dm := Search(h, 0, ts);
      && Siblings(H, h, ts[0], nodes, dm, 0) == Some(c)
      && FullSiblings(H, h, ts[0], nodes, 0) == Some(f)
      && Expand(h, ts[0], dm, 0, c, 0) == Some((f, []))
    ensures ListsRoots(H, leaves, h, P.Paths(ts[0]), f)
  {
    BuiltNodesHere(H, nodes, leaves, h);
    var dm := Search(h, 0, ts);
    c, f := StartGood(H, h, 0, ts, j, leaves, nodes, dm);
    var g := FullIs(H, h, ts[0], leaves, nodes, 0);
    assert c + [] == c;
  }

  lemma {:induction false} TreeShapeOpenable(leaves: seq<int>, h: nat)
    requires |leaves| == Pow2(h)
    ensures Openable(TreeShape(leaves, h), h)
    decreases h
  {
    if h > 0 {
      TreeShapeOpenable(LeftHalf(leaves, h), h - 1);
      TreeShapeOpenable(RightHalf(leaves, h), h - 1);
    }
  }

  /** An update tree as the search sees it. */
  function UpdateShape<L>(u: U.UpdateTree<L>): Shape {
    match u
    case NoUpdate => Hole
    case LeafUpdate(_) => Tip
    case Fork(l, r) => Pair(UpdateShape(l), UpdateShape(r))
  }

  lemma {:induction false} UpdateShapeWellShaped<L>(u: U.UpdateTree<L>, h: nat)
    requires U.WellFormed(u, h)
    ensures WellShaped(UpdateShape(u), h) && Openable(UpdateShape(u), h)
    decreases h
  {
    match u
    case Fork(l, r) =>
      UpdateShapeWellShaped(l, h - 1);
      UpdateShapeWellShaped(r, h - 1);
    case _ =>
  }

  /** The trees of `patricia_guess_descents`: the update tree and the trees opened from the two
      root hashes. None where a lookup fails. */
  function GuessTrees<L>(h: nat, u: U.UpdateTree<L>, s: Preimages, prevRoot: int, newRoot: int): Option<seq<Shape>> {
    var prev := PreimageTree(s, h, Canonic(s, prevRoot));
    var next := PreimageTree(s, h, Canonic(s, newRoot));
    if prev.None? || next.None? then None else Some([UpdateShape(u), prev.value, next.value])
  }

  /** The update of a Patricia tree as a whole: from the update tree built from modifications in
      range and a preimage map of the old and new trees, the guessed descents compress the
      siblings of the old tree without failing, and the list expands to the full one. */
  lemma GuessedDescentsCompress<L>(H: Hash, n: nat, h: nat, mods: seq<(int, L)>, s: Preimages,
                                   before: seq<int>, after: seq<int>, nodes: NodeDict)
    returns (ts: seq<Shape>, c: seq<int>, f: seq<int>)
    requires CollisionFree(H, n) && h <= n && WellKeyed(H, s, n) && |before| == |after| == Pow2(h)
    requires Stored(H, s, before, h) && Stored(H, s, after, h)
    requires mods != [] && U.InRange(mods, h) && NodesBelow(H, before, h + 1, nodes)
    ensures GuessTrees(h, U.Split(U.ToDict(mods), h, 0), s, Root(H, before, h), Root(H, after, h)) == Some(ts) && Trees(ts, h)
    ensures var u := U.Split(U.ToDict(mods), h, 0);
      var dm := Search(h, 0, ts);
      && Siblings(H, h, UpdateShape(u), nodes, dm, 0) == Some(c)
      && FullSiblings(H, h, UpdateShape(u), nodes, 0) == Some(f)
      && Expand(h, UpdateShape(u), dm, 0, c, 0) == Some((f, []))
      && ListsRoots(H, before, h, P.Paths(UpdateShape(u)), f)
  {
    var u := U.Split(U.ToDict(mods), h, 0);
    OpenStored(H, s, before, h, n);
    OpenStored(H, s, after, h, n);
    U.SplitWellFormed(U.ToDict(mods), h, 0);
    UpdateShapeWellShaped(u, h);
    ts := [UpdateShape(u), TreeShape(before, h), TreeShape(after, h)];
    U.TopLayer(mods, h);
    assert U.HasUpdate(U.ToDict(mods), h, 0);
    c, f := CompressedSiblings(H, h, ts, 1, before, nodes);
  }

  lemma OpenStored(H: Hash, s: Preimages, leaves: seq<int>, h: nat, n: nat)
    requires CollisionFree(H, n) && h <= n && WellKeyed(H, s, n) && |leaves| == Pow2(h)
    requires Stored(H, s, leaves, h)
    ensures PreimageTree(s, h, Canonic(s, Root(H, leaves, h))) == Some(TreeShape(leaves, h))
    ensures Openable(TreeShape(leaves, h), h)
  {
    if h > 0 {
      CanonicRecovers(H, s, leaves, h, n);
      PreimageTreeIsShape(H, s, leaves, h, n);
    }
    TreeShapeOpenable(leaves, h);
  }
}
