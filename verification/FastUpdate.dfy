/**
 The update of a Patricia tree without calculation objects
 (src/starkware/starkware_utils/commitment_tree/patricia_tree/fast_patricia_update.py). The nodes that
 the update needs are fetched first. Then the new structure is built, in layers. Then the layers are
 hashed. The result is compared with the update over calculation objects.
 */
module FastUpdate {
  import opened Common
  import opened PatriciaEncoding
  import opened PatriciaBuild
  import opened EdgePaths
  import opened TreeIndex
  import opened LeafIndices
  import opened FastNodes
  import opened FastFacts
  import C = Calculation
  import P = PatriciaTree
  import U = UpdateTree
  import V = PatriciaUpdate

  // ---------------------------------------------------------------------------
  // Building the new structure
  // ---------------------------------------------------------------------------

  class TreeContext {
    const height: nat
    const leaves: map<nat, int>
    var prefetched: map<nat, Node>
    var layers: Layers

    constructor (top: nat, newLeaves: map<nat, int>)
      ensures height == top && leaves == newLeaves && layers == []
      ensures prefetched == map x | x in newLeaves :: Node(0, 0, Some(newLeaves[x]))
    {
      height, leaves, layers := top, newLeaves, [];
      prefetched := map x | x in newLeaves :: Node(0, 0, Some(newLeaves[x]));
    }

    ghost predicate Ok(S: Setting)
      reads this
    {
      S.top == height && S.upd == leaves && Ready(S, layers, prefetched)
    }

    method SetUpdatedNode(index: nat, r: LayeredNode)
      requires r.layer <= |layers|
      modifies this`layers
      ensures layers == SetUpdated(old(layers), index, r)
    {
      if |layers| == r.layer { layers := layers + [[]]; }
      layers := layers[r.layer := layers[r.layer] + [Indexed(index, r.node)]];
    }

    /** set_updated_node of a node that stands for its leaves. */
    method Finalize(ghost S: Setting, index: nat, r: LayeredNode)
      requires Ok(S) && Denotes(S, layers, index, r) && Belongs(S, index)
      modifies this`layers
      ensures Ok(S) && Grows(old(layers), layers) && r.layer < |layers| && Knows(layers, r.layer + 1, index)
    {
      SetUpdatedOk(S, layers, index, r);
      SetUpdatedGrows(layers, index, r);
      SetUpdatedNode(index, r);
    }

    method ConstructEdgeNode(ghost S: Setting, ghost i: nat, path: nat, length: nat, bottomIndex: nat, bottom: LayeredNode)
      returns (r: LayeredNode)
      requires Ok(S) && InTree(height, i) && 0 < length <= Height(height, i) && path < Pow2(length)
      requires bottomIndex == Descend(i, length, path) && Sole(New(S, i), Height(height, i), length, path)
      requires Denotes(S, layers, bottomIndex, bottom)
      modifies this`layers
      ensures Ok(S) && Grows(old(layers), layers) && Denotes(S, layers, i, r)
    {
      if bottom.node.IsEmpty() {
        EmptyEdge(S, layers, i, length, path, bottom);
        return Layered(0, EMPTY_NODE);
      }
      var layer := bottom.layer;
      var total, whole := bottom.node.length + length, Shl(path, bottom.node.length) + bottom.node.path;
      if bottom.node.IsBinary() {
        ghost var before := layers;
        BinaryBelongs(S, layers, bottomIndex, bottom);
        Finalize(S, bottomIndex, bottom);
        EdgeOverBinary(S, before, i, length, path, bottom, layers, total, whole);
        layer := layer + 1;
      } else {
        EdgeDenotes(S, layers, i, length, path, bottom, total, whole);
      }
      r := Layered(layer, Node(whole, total, bottom.node.value));
    }

    /** The children of a binary node: neither can change its form any more. */
    method FinalizeChildren(ghost S: Setting, index: nat, left: LayeredNode, right: LayeredNode, ghost layer: nat)
      requires Ok(S) && InTree(height, index) && Height(height, index) > 0 && left.layer <= layer && right.layer <= layer
      requires layer == left.layer || layer == right.layer
      requires Denotes(S, layers, Child(index, false), left) && NewCode(S, Child(index, false)) != EMPTY
      requires Denotes(S, layers, Child(index, true), right) && NewCode(S, Child(index, true)) != EMPTY
      modifies this`layers
      ensures Ok(S) && Grows(old(layers), layers) && Denotes(S, layers, index, Layered(layer + 1, BINARY_NODE))
    {
      ghost var before := layers;
      ChildrenBelong(S, index);
      Finalize(S, Child(index, false), left);
      ghost var mid := layers;
      DenotesMore(S, before, mid, Child(index, true), right, right.layer);
      Finalize(S, Child(index, true), right);
      KnowsMore(mid, left.layer + 1, layers, layer + 1, Child(index, false));
      KnowsMore(layers, right.layer + 1, layers, layer + 1, Child(index, true));
      BinaryDenotes(S, layers, index, layer + 1);
    }

    method ConstructBinaryNode(ghost S: Setting, index: nat, left: LayeredNode, right: LayeredNode) returns (r: LayeredNode)
      requires Ok(S) && InTree(height, index) && Height(height, index) > 0
      requires Denotes(S, layers, Child(index, false), left) && Denotes(S, layers, Child(index, true), right)
      modifies this`layers
      ensures Ok(S) && Grows(old(layers), layers) && Denotes(S, layers, index, r)
    {
      DenotesEmpty(S, layers, Child(index, false), left);
      DenotesEmpty(S, layers, Child(index, true), right);
      var layer := Max(left.layer, right.layer);
      if !left.node.IsEmpty() && !right.node.IsEmpty() {
        FinalizeChildren(S, index, left, right, layer);
        return Layered(layer + 1, BINARY_NODE);
      }
      var toRight := !right.node.IsEmpty();
      var child := if toRight then right else left;
      OneStep(S, index, toRight);
      DenotesMore(S, layers, layers, Child(index, toRight), child, layer);
      r := ConstructEdgeNode(S, index, if toRight then 1 else 0, 1, Child(index, toRight), Layered(layer, child.node));
    }

    method UpdateEmptyNode(ghost S: Setting, index: nat, idx: seq<nat>) returns (r: LayeredNode)
      requires Ok(S) && InTree(height, index) && Lists(idx, height, leaves, index) && idx != [] && AllZero(Old(S, index))
      modifies this`layers
      ensures Ok(S) && Grows(old(layers), layers) && Denotes(S, layers, index, r)
      decreases Height(height, index)
    {
      var h := Height(height, index);
      if h == 0 {
        LeafList(idx, height, leaves, index);
        LeafDenotes(S, layers, index);
        return Layered(0, prefetched[index]);
      }
      if OnBothSides(h, idx) {
        BothSides(S, index, idx);
        OldZeroChildren(S, index);
        var (leftIndices, rightIndices) := SplitLeaves(index, h, idx);
        var left := UpdateEmptyNode(S, Child(index, false), leftIndices);
        ghost var mid := layers;
        var right := UpdateEmptyNode(S, Child(index, true), rightIndices);
        DenotesMore(S, mid, layers, Child(index, false), left, left.layer);
        r := ConstructBinaryNode(S, index, left, right);
      } else {
        LcaInside(idx, height, leaves, index);
        var (length, path) := PathToLca(index, h, idx);
        EmptyToLca(S, index, idx, length, path);
        var bottomIndex := Shl(index, length) + path;
        var bottom := UpdateEmptyNode(S, bottomIndex, idx);
        r := ConstructEdgeNode(S, index, path, length, bottomIndex, bottom);
      }
    }

    /** get_edge_or_prefetched_node */
    method GetEdgeOrPrefetched(index: nat, node: Node) returns (r: Node)
      requires !node.IsEdge() ==> index in prefetched
      ensures r == if node.IsEdge() then node else prefetched[index]
    {
      if node.IsEdge() { return node; }
      return prefetched[index];
    }

    method UpdateNonemptyNode(ghost S: Setting, index: nat, node: Node, idx: seq<nat>) returns (r: LayeredNode)
      requires Ok(S) && InTree(height, index) && Lists(idx, height, leaves, index) && OldCode(S, index) != EMPTY
      requires node == Wanted(S, index) && Opened(S, prefetched, index)
      modifies this`layers
      ensures Ok(S) && Grows(old(layers), layers) && Denotes(S, layers, index, r)
      decreases Height(height, index), 1
    {
      ListsTouched(idx, height, leaves, index);
      if idx == [] {
        SiblingDenotes(S, layers, index);
        return Layered(0, node);
      }
      if Height(height, index) == 0 {
        LeafList(idx, height, leaves, index);
        LeafDenotes(S, layers, index);
        return Layered(0, prefetched[index]);
      }
      WantedEdge(S, index, node);
      if node.IsBinary() {
        r := UpdateBinaryNode(S, index, idx);
      } else {
        r := UpdateEdgeNode(S, index, node, idx);
      }
    }

    /** The case of a binary node in update_nonempty_node. */
    method UpdateBinaryNode(ghost S: Setting, index: nat, idx: seq<nat>) returns (r: LayeredNode)
      requires Ok(S) && InTree(height, index) && Height(height, index) > 0 && Lists(idx, height, leaves, index) && idx != []
      requires Opened(S, prefetched, index) && Set(S, index) && OldCode(S, index) != EMPTY && OldCode(S, index).length == 0
      modifies this`layers
      ensures Ok(S) && Grows(old(layers), layers) && Denotes(S, layers, index, r)
      decreases Height(height, index), 0
    {
      BothSides(S, index, idx);
      BinaryKids(S, prefetched, index);
      var (leftIndices, rightIndices) := SplitLeaves(index, Height(height, index), idx);
      var left := UpdateNonemptyNode(S, Child(index, false), prefetched[Child(index, false)], leftIndices);
      ghost var mid := layers;
      var right := UpdateNonemptyNode(S, Child(index, true), prefetched[Child(index, true)], rightIndices);
      DenotesMore(S, mid, layers, Child(index, false), left, left.layer);
      r := ConstructBinaryNode(S, index, left, right);
    }

    method UpdateEdgeNode(ghost S: Setting, index: nat, node: Node, idx: seq<nat>) returns (r: LayeredNode)
      requires Ok(S) && InTree(height, index) && Lists(idx, height, leaves, index) && idx != [] && Opened(S, prefetched, index)
      requires node.IsEdge() && node.value.Some? && node.value.value != 0
      requires OldCode(S, index) == Triplet(node.length, node.path, node.value.value)
      requires Height(height, index) > 0
      modifies this`layers
      ensures Ok(S) && Grows(old(layers), layers) && Denotes(S, layers, index, r)
      decreases Height(height, index), 0
    {
      var h := Height(height, index);
      ListsTouched(idx, height, leaves, index);
      var right := GoesRight(node.path, node.length);
      if OnSide(h, !right, idx) {
        r := ForkEdge(S, index, node, idx, right);
      } else {
        LcaIs(idx, height, leaves, index);
        var (lcaLength, lcaPath) := PathToLca(index, h, idx);
        var suffixLength := SuffixLength(lcaPath, lcaLength, node.path, node.length);
        KeptLength(S, index, OldCode(S, index), idx, lcaLength, lcaPath, suffixLength);
        var length, m := node.length - suffixLength, Pow2(suffixLength);
        OldTells(S, index);
        Divided(node.path, node.length, length, m);
        Divided(lcaPath, lcaLength, length, Pow2(lcaLength - length));
        var prefix: nat, suffix: nat := node.path / m, node.path % m;
        ghost var rest: nat := lcaPath % Pow2(lcaLength - length);
        KeptPart(S, prefetched, index, OldCode(S, index), idx, lcaLength, lcaPath, length, suffixLength, prefix, suffix, rest);
        r := UpdateBottom(S, index, node, idx, length, prefix, suffixLength, suffix);
      }
    }

    /** The case of update_edge_node with leaves on the empty side. */
    method ForkEdge(ghost S: Setting, index: nat, node: Node, idx: seq<nat>, right: bool) returns (r: LayeredNode)
      requires Ok(S) && InTree(height, index) && Height(height, index) > 0 && Lists(idx, height, leaves, index) && idx != []
      requires Opened(S, prefetched, index) && Set(S, index) && node.IsEdge() && node.value.Some? && node.value.value != 0
      requires OldCode(S, index) == Triplet(node.length, node.path, node.value.value)
      requires right == GoesRight(node.path, node.length) && OnSide(Height(height, index), !right, idx)
      modifies this`layers
      ensures Ok(S) && Grows(old(layers), layers) && Denotes(S, layers, index, r)
      decreases Height(height, index) - 1, 2
    {
      BothSides(S, index, idx);
      EdgeFirst(S, prefetched, index, OldCode(S, index), Pow2(node.length - 1), right);
      ChildInTree(height, index, true);
      ChildInTree(height, index, false);
      var (leftIndices, rightIndices) := SplitLeaves(index, Height(height, index), idx);
      var rest := Node(PathBelow(node.path, node.length), node.length - 1, node.value);
      RestOfEdge(S, prefetched, Child(index, right), rest);
      var start := GetEdgeOrPrefetched(Child(index, right), rest);
      var edgeChild := UpdateNonemptyNode(S, Child(index, right), start, if right then rightIndices else leftIndices);
      ghost var mid := layers;
      var emptyChild := UpdateEmptyNode(S, Child(index, !right), if right then leftIndices else rightIndices);
      DenotesMore(S, mid, layers, Child(index, right), edgeChild, edgeChild.layer);
      r := ConstructBinaryNode(S, index, if right then emptyChild else edgeChild, if right then edgeChild else emptyChild);
    }

    /** The last part of update_edge_node. */
    method UpdateBottom(ghost S: Setting, index: nat, node: Node, idx: seq<nat>, length: nat, prefix: nat, suffixLength: nat, suffix: nat)
      returns (r: LayeredNode)
      requires Ok(S) && InTree(height, index) && 0 < length <= Height(height, index) && prefix < Pow2(length) && node.value.Some?
      requires var b := Descend(index, length, prefix);
        && InTree(height, b) && Height(height, b) == Height(height, index) - length && OldCode(S, b) != EMPTY
        && OldCode(S, b) == Triplet(suffixLength, suffix, node.value.value)
        && Opened(S, prefetched, b) && (suffixLength == 0 ==> Fetched(S, prefetched, b)) && Lists(idx, height, leaves, b)
      requires Sole(New(S, index), Height(height, index), length, prefix)
      modifies this`layers
      ensures Ok(S) && Grows(old(layers), layers) && Denotes(S, layers, index, r)
      decreases Height(height, index) - length, 2
    {
      DescendIs(index, length, prefix);
      var bottomIndex := Shl(index, length) + prefix;
      var rest := Node(suffix, suffixLength, node.value);
      RestOfEdge(S, prefetched, bottomIndex, rest);
      var start := GetEdgeOrPrefetched(bottomIndex, rest);
      var bottom := UpdateNonemptyNode(S, bottomIndex, start, idx);
      r := ConstructEdgeNode(S, index, prefix, length, bottomIndex, bottom);
    }

    // Fetching.

    /** The context before the structure is built. */
    ghost predicate Fetching(S: Setting, s: Preimages)
      reads this
    {
      S.top == height && S.upd == leaves && S.s == s && ValidSetting(S) && AllWanted(S, prefetched)
    }

    /** SubTree.set_leaf */
    method SetLeaf(ghost S: Setting, st: SubTree)
      requires Fetching(S, S.s) && IsSubTree(S, st) && Height(height, st.index) == 0
      modifies this`prefetched
      ensures Fetching(S, S.s) && prefetched.Keys == old(prefetched.Keys) + {st.index}
    {
      LeafWanted(S, st);
      var value := if st.leafIndices == [] then st.rootHash else leaves[st.leafIndices[0]];
      var node := if value == 0 then EMPTY_NODE else Node(0, 0, Some(value));
      WantedMore(S, prefetched, st.index, node);
      prefetched := prefetched[st.index := node];
    }

    /** A subtree found below: a leaf is set, another one waits. */
    method Reach(ghost S: Setting, st: SubTree) returns (next: seq<SubTree>)
      requires Fetching(S, S.s) && IsSubTree(S, st)
      modifies this`prefetched
      ensures Fetching(S, S.s) && old(prefetched).Keys <= prefetched.Keys
      ensures Covered(S, prefetched, next, st.index) && AllSubTrees(S, next, Height(height, st.index))
    {
      if Height(height, st.index) == 0 {
        SetLeaf(S, st);
        return [];
      }
      next := [st];
      assert next[0].index == st.index;
    }

    /** Sets a fetched inner node. */
    method SetFetched(ghost S: Setting, st: SubTree, node: Node)
      requires Fetching(S, S.s) && IsSubTree(S, st) && node == Wanted(S, st.index)
      modifies this`prefetched
      ensures Fetching(S, S.s) && prefetched.Keys == old(prefetched.Keys) + {st.index}
    {
      WantedMore(S, prefetched, st.index, node);
      prefetched := prefetched[st.index := node];
    }

    /** The children of a binary node that is to be updated. */
    method FetchChildren(ghost S: Setting, st: SubTree, left: SubTree, right: SubTree) returns (next: seq<SubTree>)
      requires Fetching(S, S.s) && IsSubTree(S, st) && Height(height, st.index) > 0 && st.index in prefetched
      requires OldCode(S, st.index).length == 0 && ChildrenInTree(S, st.index)
      requires left.index == Child(st.index, false) && IsSubTree(S, left)
      requires right.index == Child(st.index, true) && IsSubTree(S, right)
      modifies this`prefetched
      ensures Fetching(S, S.s) && old(prefetched).Keys <= prefetched.Keys && Handled(S, prefetched, next, st.index)
      ensures AllSubTrees(S, next, Height(height, st.index) - 1)
    {
      var l := Reach(S, left);
      ghost var P := prefetched;
      var r := Reach(S, right);
      next := l + r;
      ChildInTree(height, st.index, false);
      ChildInTree(height, st.index, true);
      JoinSubTrees(S, l, r, Height(height, st.index) - 1);
      CoveredMore(S, P, l, prefetched, next, left.index);
      CoveredMore(S, prefetched, r, prefetched, next, right.index);
      ChildrenHandled(S, prefetched, next, st.index);
    }

    /** The bottom of an edge that is to be updated. */
    method FetchBottom(ghost S: Setting, st: SubTree, bottomHash: int, path: nat, length: nat) returns (next: seq<SubTree>)
      requires Fetching(S, S.s) && IsSubTree(S, st) && 0 < length <= Height(height, st.index)
      requires OldCode(S, st.index) == Triplet(length, path, bottomHash) && st.index in prefetched
      modifies this`prefetched
      ensures Fetching(S, S.s) && old(prefetched).Keys <= prefetched.Keys && Handled(S, prefetched, next, st.index)
      ensures AllSubTrees(S, next, Height(height, st.index) - 1)
    {
      var b := Shl(st.index, length) + path;
      var bottomLeaves := BottomLeaves(st.leafIndices, b, Height(height, st.index) - length);
      BottomSubTree(S, st, OldCode(S, st.index), b, bottomLeaves);
      next := Reach(S, SubTree(b, bottomHash, bottomLeaves));
    }

    /** One round of the loop in fetch_nodes. */
    method FetchOne(ghost S: Setting, s: Preimages, st: SubTree) returns (next: seq<SubTree>)
      requires Fetching(S, s) && IsSubTree(S, st) && Height(height, st.index) > 0
      modifies this`prefetched
      ensures Fetching(S, s) && old(prefetched).Keys <= prefetched.Keys && Handled(S, prefetched, next, st.index)
      ensures AllSubTrees(S, next, Height(height, st.index) - 1)
    {
      if OldCode(S, st.index).length > 0 { StoredEdge(S, st, OldCode(S, st.index)); } else { StoredBinary(S, st); }
      InnerWanted(S, st);
      OldTells(S, st.index);
      next := [];
      var fact := s[st.rootHash];
      if fact.BinaryFact? {
        if st.leafIndices == [] {
          SetFetched(S, st, Node(0, 0, Some(st.rootHash)));
        } else {
          SetFetched(S, st, BINARY_NODE);
          ChildSubTrees(S, st, fact.left, fact.right);
          var (l, r) := SplitLeaves(st.index, Height(height, st.index), st.leafIndices);
          var left, right := SubTree(Child(st.index, false), fact.left, l), SubTree(Child(st.index, true), fact.right, r);
          next := FetchChildren(S, st, left, right);
        }
      } else {
        SetFetched(S, st, Node(fact.path, fact.length, Some(fact.bottom)));
        if st.leafIndices != [] { next := FetchBottom(S, st, fact.bottom, fact.path, fact.length); }
      }
    }

    /** fetch_nodes: layer by layer, whatever the heights; `bound` is a ghost bound on them. */
    method FetchNodes(ghost S: Setting, s: Preimages, subtrees: seq<SubTree>, ghost bound: nat)
      requires Fetching(S, s) && AllSubTrees(S, subtrees, bound)
      modifies this`prefetched
      ensures Fetching(S, s) && old(prefetched).Keys <= prefetched.Keys
      ensures forall q :: 0 <= q < |subtrees| ==> Fetched(S, prefetched, subtrees[q].index)
      decreases bound
    {
      if |subtrees| == 0 { return; }
      assert Height(height, subtrees[0].index) <= bound;
      var next: seq<SubTree> := [];
      for k := 0 to |subtrees|
        invariant Fetching(S, s) && old(prefetched).Keys <= prefetched.Keys
        invariant AllHandled(S, prefetched, next, subtrees, k)
        invariant AllSubTrees(S, next, bound - 1)
      {
        ghost var P, before := prefetched, next;
        var more := FetchOne(S, s, subtrees[k]);
        next := next + more;
        JoinSubTrees(S, before, more, bound - 1);
        HandledStep(S, P, before, prefetched, more, next, subtrees, k);
      }
      ghost var P := prefetched;
      FetchNodes(S, s, next, bound - 1);
      AllHandledMore(S, P, next, prefetched, next, subtrees, |subtrees|);
      AllFetched(S, prefetched, next, subtrees);
    }
  }

  // ---------------------------------------------------------------------------
  // Hashing
  // ---------------------------------------------------------------------------

  lemma {:induction false} SomeIndex(s: set<nat>)
    ensures s == {} || exists b :: b in s
  {
    if forall b :: b !in s { assert s == {}; }
  }

  function Below(n: nat): (r: set<nat>)
    ensures forall b: nat :: b in r <==> b < n
  {
    if n == 0 then {}
    else
      var k: nat := n - 1;
      Below(k) + {k}
  }

  ghost predicate Hashable(S: Setting, H: Hash, layers: Layers) {
    ValidSetting(S) && S.H == H && LayersOk(S, layers)
  }

  /** calculate_inner_node_facts; the nodes of a layer are taken in any order. */
  method CalculateInnerNodeFacts(ghost S: Setting, H: Hash, layers: Layers) returns (root: int, facts: Preimages)
    requires Hashable(S, H, layers) && Knows(layers, |layers|, 1)
    ensures root == Root(H, S.after, S.top)
    ensures WellKeyed(H, facts, S.n) && Stored(H, S.s + facts, S.after, S.top)
    ensures AllFrom(facts, AllFacts(S))
  {
    var hashes: map<nat, int> := map[];
    facts := map[];
    NothingHashed(S, layers);
    for k := 0 to |layers|
      invariant HashState(S, layers, k, hashes, facts)
    {
      hashes, facts := HashLayer(S, H, layers, k, hashes, facts);
    }
    RootHashed(S, layers, hashes, facts);
    root := hashes[1];
  }

  method HashLayer(ghost S: Setting, H: Hash, layers: Layers, k: nat, hashes0: map<nat, int>, facts0: Preimages)
    returns (hashes: map<nat, int>, facts: Preimages)
    requires Hashable(S, H, layers) && k < |layers|
    requires HashState(S, layers, k, hashes0, facts0)
    ensures HashState(S, layers, k + 1, hashes, facts)
  {
    hashes, facts := hashes0, facts0;
    var todo: set<nat> := Below(|layers[k]|);
    while todo != {}
      invariant PartHashed(S, layers, k, todo, hashes, facts)
      invariant forall b :: b in todo ==> b < |layers[k]|
      invariant AllFrom(facts, AllFacts(S))
      decreases |todo|
    {
      SomeIndex(todo);
      var b :| b in todo;
      var item := layers[k][b];
      HashStep(S, layers, k, todo, hashes, facts, b);
      FactBelongs(S, layers, k, b, hashes, facts);
      hashes, facts := hashes[item.index := HashOf(H, item, hashes)], FastFacts.Record(H, facts, FactOf(item, hashes));
      todo := todo - {b};
    }
    LayerHashed(S, layers, k, todo, hashes, facts);
  }

  // ---------------------------------------------------------------------------
  // The whole update
  // ---------------------------------------------------------------------------

  lemma {:induction false} RootLists(S: Setting, s: seq<nat>)
    requires ValidSetting(S) && Ascending(s) && forall x: nat :: x in s <==> x in S.upd
    ensures InTree(S.top, 1) && Height(S.top, 1) == S.top && Lists(s, S.top, S.upd, 1)
  {
    forall x: nat | x in S.upd ensures IsBelow(S.top, x, 1) { LeafBelowRoot(S.top, x); }
  }

  /** update_structure, past its assertions */
  method UpdateStructure(ghost S: Setting, s: Preimages, root: int, height: nat, leaves: map<nat, int>) returns (layers: Layers)
    requires ValidSetting(S) && S.top == height && S.upd == leaves && S.s == s && height > 0 && leaves != map[]
    requires root == Root(S.H, S.before, height) && Stored(S.H, s, S.before, height)
    ensures LayersOk(S, layers) && Knows(layers, |layers|, 1)
  {
    var leafIndices := SortedKeys(leaves.Keys);
    RootLists(S, leafIndices);
    assert leafIndices != [] by { SomeLeaf(leaves); }
    var context := new TreeContext(height, leaves);
    EncodeTells(S.H, S.before, height, S.n);
    assert Old(S, 1) == S.before && Block(S.after, S.top, 1) == S.after;
    var rootNode;
    if root == 0 {
      rootNode := context.UpdateEmptyNode(S, 1, leafIndices);
    } else {
      var subtrees := [SubTree(1, root, leafIndices)];
      assert IsSubTree(S, subtrees[0]);
      context.FetchNodes(S, s, subtrees, height);
      assert Fetched(S, context.prefetched, subtrees[0].index);
      FetchedReady(S, context.layers, context.prefetched);
      rootNode := context.UpdateNonemptyNode(S, 1, context.prefetched[1], leafIndices);
    }
    RootBelongs(S);
    context.Finalize(S, 1, rootNode);
    layers := context.layers;
    KnowsMore(layers, rootNode.layer + 1, layers, |layers|, 1);
  }

  lemma {:induction false} SomeLeaf(leaves: map<nat, int>)
    ensures leaves == map[] || exists x :: x in leaves
  {
    if forall x :: x !in leaves { assert leaves == map[]; }
  }

  lemma {:induction false} FetchedReady(S: Setting, layers: Layers, P: map<nat, Node>)
    requires ValidSetting(S) && layers == [] && AllWanted(S, P) && forall x :: x in S.upd ==> x in P
    ensures Ready(S, layers, P)
  {}

  /** A modification of address `a` goes to leaf `a` modulo the number of leaves. */
  function Wrapped(mods: seq<(int, C.LeafFact)>, height: nat): seq<(int, C.LeafFact)> {
    if mods == [] then []
    else Wrapped(mods[..|mods| - 1], height) + [(mods[|mods| - 1].0 % Pow2(height), mods[|mods| - 1].1)]
  }

  ghost predicate SameLeaf(upd: map<nat, int>, dict: map<int, C.LeafFact>, p: nat, x: nat) {
    && (x in upd <==> x - p in dict)
    && (x in upd ==> p <= x < 2 * p && upd[x] == dict[x - p].hash)
  }

  /** The leaves by node number and by position. */
  ghost predicate SameLeaves(upd: map<nat, int>, dict: map<int, C.LeafFact>, top: nat) {
    forall x: nat {:trigger SameLeaf(upd, dict, Pow2(top), x)} :: SameLeaf(upd, dict, Pow2(top), x)
  }

  lemma {:induction false} ModifiedDiffers(leaves: seq<int>, top: nat, upd: map<nat, int>, dict: map<int, C.LeafFact>)
    requires |leaves| == Pow2(top) && SameLeaves(upd, dict, top)
    ensures Differs(leaves, V.Modified(leaves, dict), top, upd)
    ensures forall x :: x in upd ==> InTree(top, x) && Height(top, x) == 0
  {
    var after := V.Modified(leaves, dict);
    forall x: nat ensures LeafIs(leaves, after, top, upd, x) {
      assert SameLeaf(upd, dict, Pow2(top), x);
      if InTree(top, x) && Height(top, x) == 0 {
        LeafBlock(leaves, top, x);
        LeafBlock(after, top, x);
      }
    }
    forall x | x in upd ensures InTree(top, x) && Height(top, x) == 0 {
      assert SameLeaf(upd, dict, Pow2(top), x);
      DepthOf(x, top);
    }
  }

  /** The dictionary of new leaf hashes, and the leaf facts by their hashes. */
  method NewLeaves(height: nat, mods: seq<(int, C.LeafFact)>) returns (upd: map<nat, int>, facts: map<int, C.LeafFact>)
    requires forall j :: 0 <= j < |mods| ==> 0 <= mods[j].0 < 2 * Pow2(height)
    ensures SameLeaves(upd, U.ToDict(Wrapped(mods, height)), height) && (mods != [] ==> upd != map[])
    ensures forall j :: 0 <= j < |mods| ==> mods[j].1.hash in facts
    ensures forall k :: k in facts ==> facts[k].hash == k
  {
    upd, facts := map[], map[];
    for j := 0 to |mods|
      invariant SameLeaves(upd, U.ToDict(Wrapped(mods[..j], height)), height) && (j > 0 ==> upd != map[])
      invariant forall k :: 0 <= k < j ==> mods[k].1.hash in facts
      invariant forall k :: k in facts ==> facts[k].hash == k
    {
      var (address, fact) := mods[j];
      OneModification(upd, height, mods, j);
      upd := upd[Or(Pow2(height), address) := fact.hash];
      facts := facts[fact.hash := fact];
    }
    assert mods[..|mods|] == mods;
  }

  lemma {:induction false} OneModification(upd: map<nat, int>, height: nat, mods: seq<(int, C.LeafFact)>, j: nat)
    requires j < |mods| && 0 <= mods[j].0 < 2 * Pow2(height) && SameLeaves(upd, U.ToDict(Wrapped(mods[..j], height)), height)
    ensures var more := upd[Or(Pow2(height), mods[j].0) := mods[j].1.hash];
      SameLeaves(more, U.ToDict(Wrapped(mods[..j + 1], height)), height) && more != map[]
  {
    assert mods[..j + 1][..j] == mods[..j];
    var k := mods[j].0 % Pow2(height);
    OrBit(height, mods[j].0);
    var w := Wrapped(mods[..j + 1], height);
    assert w[..|w| - 1] == Wrapped(mods[..j], height) && w[|w| - 1] == (k, mods[j].1);
    OneMore(upd, U.ToDict(Wrapped(mods[..j], height)), height, k, mods[j].1);
  }

  lemma {:induction false} OneMore(upd: map<nat, int>, dict: map<int, C.LeafFact>, top: nat, k: nat, fact: C.LeafFact)
    requires SameLeaves(upd, dict, top) && k < Pow2(top)
    ensures SameLeaves(upd[Pow2(top) + k := fact.hash], dict[k := fact], top) && upd[Pow2(top) + k := fact.hash] != map[]
  {
    var p := Pow2(top);
    var upd', dict' := upd[p + k := fact.hash], dict[k := fact];
    assert p + k in upd';
    forall x: nat ensures SameLeaf(upd', dict', p, x) { assert SameLeaf(upd, dict, p, x); }
  }

  lemma {:induction false} WrappedFacts(mods: seq<(int, C.LeafFact)>, height: nat, k: int)
    requires k in U.ToDict(Wrapped(mods, height))
    ensures exists j :: 0 <= j < |mods| && mods[j].1 == U.ToDict(Wrapped(mods, height))[k]
  {
    var n, w := |mods| - 1, Wrapped(mods, height);
    var before := Wrapped(mods[..n], height);
    assert w[..|w| - 1] == before;
    if mods[n].0 % Pow2(height) != k {
      WrappedFacts(mods[..n], height, k);
      var j :| 0 <= j < n && mods[..n][j].1 == U.ToDict(before)[k];
      assert mods[j] == mods[..n][j];
    }
  }

  lemma {:induction false} NewLeavesKnown(leaves: seq<int>, mods: seq<(int, C.LeafFact)>, height: nat, known: set<int>, facts: map<int, C.LeafFact>)
    requires P.KnownLeaves(leaves, known) && forall j :: 0 <= j < |mods| ==> mods[j].1.hash in facts
    ensures P.KnownLeaves(V.Modified(leaves, U.ToDict(Wrapped(mods, height))), known + facts.Keys)
  {
    var dict := U.ToDict(Wrapped(mods, height));
    forall i | 0 <= i < |leaves| && i in dict ensures dict[i].hash in facts { WrappedFacts(mods, height, i); }
  }

  lemma {:induction false} WrappedInRange(mods: seq<(int, C.LeafFact)>, height: nat)
    requires U.InRange(mods, height)
    ensures Wrapped(mods, height) == mods
  {
    if mods != [] {
      var n := |mods| - 1;
      WrappedInRange(mods[..n], height);
      DivUnique(mods[n].0, Pow2(height), 0, mods[n].0);
    }
  }

  /** update_tree: with one assertion, that the height is positive, which an empty list does not reach.
      The new root is that of the modified leaves, the storage holds the whole new tree, and no stored fact is lost. */
  method UpdateTree(H: Hash, ghost n: nat, storage: V.FactStorage, root: int, height: nat, mods: seq<(int, C.LeafFact)>,
                    ghost leaves: seq<int>)
    returns (r: Option<int>)
    requires CollisionFree(H, n) && height <= n && |leaves| == Pow2(height)
    requires forall j :: 0 <= j < |mods| ==> 0 <= mods[j].0 < 2 * Pow2(height)
    requires V.Represents(H, n, storage.Contents(), root, leaves, height)
    modifies storage
    ensures r.None? <==> height == 0 && mods != []
    ensures r.Some? ==>
      V.Represents(H, n, storage.Contents(), r.value, V.Modified(leaves, U.ToDict(Wrapped(mods, height))), height)
    ensures r.Some? ==>
      AddsOnly(old(storage.inner), storage.inner, TreeFacts(H, V.Modified(leaves, U.ToDict(Wrapped(mods, height))), height))
    ensures old(storage.leaves).Keys <= storage.leaves.Keys
    ensures r.None? ==> storage.Contents() == old(storage.Contents())
  {
    if |mods| == 0 {
      assert V.Modified(leaves, map[]) == leaves;
      return Some(root);
    }
    var upd, leafFacts := NewLeaves(height, mods);
    if height == 0 { return None; }
    ghost var after := V.Modified(leaves, U.ToDict(Wrapped(mods, height)));
    var newRoot, facts := NewFacts(H, n, storage.inner, root, height, mods, leaves, upd);
    NewLeavesKnown(leaves, mods, height, storage.leaves.Keys, leafFacts);
    NewStorage(H, n, storage.Contents(), facts, leafFacts, after, height);
    storage.inner := storage.inner + facts;
    storage.leaves := storage.leaves + leafFacts;
    r := Some(newRoot);
  }

  /** The new root and the facts of the new nodes. */
  method NewFacts(H: Hash, ghost n: nat, s: Preimages, root: int, height: nat, ghost mods: seq<(int, C.LeafFact)>,
                  ghost leaves: seq<int>, upd: map<nat, int>)
    returns (newRoot: int, facts: Preimages)
    requires CollisionFree(H, n) && 0 < height <= n && |leaves| == Pow2(height) && WellKeyed(H, s, n)
    requires root == Root(H, leaves, height) && Stored(H, s, leaves, height)
    requires SameLeaves(upd, U.ToDict(Wrapped(mods, height)), height) && upd != map[]
    ensures var after := V.Modified(leaves, U.ToDict(Wrapped(mods, height)));
      && newRoot == Root(H, after, height) && WellKeyed(H, facts, n)
      && Stored(H, s + facts, after, height) && AllFrom(facts, TreeFacts(H, after, height))
  {
    ghost var after := V.Modified(leaves, U.ToDict(Wrapped(mods, height)));
    ModifiedDiffers(leaves, height, upd, U.ToDict(Wrapped(mods, height)));
    ghost var S := Setting(H, n, height, leaves, after, upd, s);
    forall i: nat ensures Backed(S, i) { AllBacked(S, i); }
    var layers := UpdateStructure(S, s, root, height, upd);
    newRoot, facts := CalculateInnerNodeFacts(S, H, layers);
  }

  lemma {:induction false} NewStorage(H: Hash, n: nat, stored: C.Facts, facts: Preimages, leafFacts: map<int, C.LeafFact>, after: seq<int>, height: nat)
    requires CollisionFree(H, n) && |after| == Pow2(height) && WellKeyed(H, stored.inner, n) && WellKeyed(H, facts, n)
    requires (forall k :: k in stored.leaves ==> stored.leaves[k].hash == k) && forall k :: k in leafFacts ==> leafFacts[k].hash == k
    requires Stored(H, stored.inner + facts, after, height) && AllFrom(facts, TreeFacts(H, after, height))
    requires P.KnownLeaves(after, stored.leaves.Keys + leafFacts.Keys)
    ensures V.Represents(H, n, C.Facts(stored.inner + facts, stored.leaves + leafFacts), Root(H, after, height), after, height)
    ensures AddsOnly(stored.inner, stored.inner + facts, TreeFacts(H, after, height))
  {
    UnionExtends(H, stored.inner, facts, n);
    UnionAddsOnly(stored.inner, facts, TreeFacts(H, after, height));
    assert (stored.leaves + leafFacts).Keys == stored.leaves.Keys + leafFacts.Keys;
  }

  /** An address one number of leaves too large is not refused: it is the address of a leaf. */
  lemma {:induction false} AddressWraps(height: nat, a: nat, f: C.LeafFact)
    requires a < Pow2(height)
    ensures !U.InRange([(Pow2(height) + a, f)], height)
    ensures Wrapped([(Pow2(height) + a, f)], height) == [(a, f)]
  {
    var mods := [(Pow2(height) + a, f)];
    assert mods[0].0 == Pow2(height) + a && mods[..0] == [];
    DivUnique(Pow2(height) + a, Pow2(height), 1, a);
  }

  /** Main result: `update_efficiently` gives the root that `update` gives, and leaves the same facts of
      inner nodes in the storage, whatever the schedules of both. */
  method CompareUpdates(H: Hash, ghost n: nat, a: V.FactStorage, b: V.FactStorage, root: int, height: nat,
                        mods: seq<(int, C.LeafFact)>, ghost leaves: seq<int>)
    returns (slow: Option<int>, fast: Option<int>)
    requires CollisionFree(H, n) && 0 < height <= n && |leaves| == Pow2(height)
    requires V.ProperFacts(mods) && U.InRange(mods, height)
    requires a != b && a.Contents() == b.Contents() && V.Represents(H, n, a.Contents(), root, leaves, height)
    modifies a, b
    ensures slow.Some? && fast == slow && a.inner == b.inner
  {
    WrappedInRange(mods, height);
    ghost var s := a.inner;
    slow := V.Update(H, n, a, root, height, mods, leaves);
    fast := UpdateTree(H, n, b, root, height, mods, leaves);
    SameStore(H, n, s, a.inner, b.inner, V.Modified(leaves, U.ToDict(mods)), height);
  }
}
