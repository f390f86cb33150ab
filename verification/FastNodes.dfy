/**
 The nodes of the fast update and what they stand for
 (src/starkware/starkware_utils/commitment_tree/patricia_tree/fast_patricia_update.py): fetched nodes of
 the old tree, and nodes of the new tree whose hashes are not known yet, put into layers so that each
 comes after those it depends on.
 */
module FastNodes {
  import opened Common
  import opened PatriciaEncoding
  import opened PatriciaBuild
  import opened EdgePaths
  import opened TreeIndex
  import opened LeafIndices

  /** With length 0, a value of None is a binary node, and another value a leaf or an unchanged binary
      node. With a positive length, a value of None means that the bottom is in an earlier layer. */
  datatype Node = Node(path: nat, length: nat, value: Option<int>) {
    predicate IsEdge() { length > 0 }
    predicate IsBinary() { value.None? && length == 0 }
    predicate IsEmpty() { value == Some(0) }
  }

  const EMPTY_NODE := Node(0, 0, Some(0))
  const BINARY_NODE := Node(0, 0, None)

  datatype LayeredNode = Layered(layer: nat, node: Node)
  datatype IndexedNode = Indexed(index: nat, node: Node)

  type Layers = seq<seq<IndexedNode>>

  // ---------------------------------------------------------------------------
  // The two trees
  // ---------------------------------------------------------------------------

  /** One update: the hash, the height, the leaves before and after, the leaves set, and the stored facts. */
  datatype Setting = Setting(H: Hash, n: nat, top: nat, before: seq<int>, after: seq<int>, upd: map<nat, int>, s: Preimages)

  ghost predicate ValidSetting(S: Setting) {
    && CollisionFree(S.H, S.n) && S.top <= S.n && WellKeyed(S.H, S.s, S.n)
    && Differs(S.before, S.after, S.top, S.upd)
    && (forall i: nat {:trigger Backed(S, i)} :: Backed(S, i))
    && forall x :: x in S.upd ==> InTree(S.top, x) && Height(S.top, x) == 0
  }

  /** The facts below node `i` of the old tree are stored. */
  ghost predicate Backed(S: Setting, i: nat) {
    |S.before| == Pow2(S.top) && InTree(S.top, i) ==> StoredBelow(S.H, S.s, Block(S.before, S.top, i), Height(S.top, i))
  }

  lemma {:induction false} AllBacked(S: Setting, i: nat)
    requires CollisionFree(S.H, S.n) && S.top <= S.n && |S.before| == Pow2(S.top) && StoredBelow(S.H, S.s, S.before, S.top)
    ensures Backed(S, i)
    decreases i
  {
    if i > 1 && InTree(S.top, i) {
      AllBacked(S, i / 2);
      StoredHalf(S.H, S.s, Block(S.before, S.top, i / 2), Height(S.top, i / 2), S.n, i % 2 == 1);
    }
  }

  ghost function Old(S: Setting, i: nat): (r: seq<int>)
    requires ValidSetting(S) && InTree(S.top, i)
    ensures |r| == Pow2(Height(S.top, i))
  {
    Block(S.before, S.top, i)
  }

  ghost function New(S: Setting, i: nat): (r: seq<int>)
    requires ValidSetting(S) && InTree(S.top, i)
    ensures |r| == Pow2(Height(S.top, i))
  {
    Block(S.after, S.top, i)
  }

  ghost function OldCode(S: Setting, i: nat): Triplet
    requires ValidSetting(S) && InTree(S.top, i)
  {
    Encode(S.H, Old(S, i), Height(S.top, i))
  }

  ghost function NewCode(S: Setting, i: nat): Triplet
    requires ValidSetting(S) && InTree(S.top, i)
  {
    Encode(S.H, New(S, i), Height(S.top, i))
  }

  /** The facts below a node, without that of its own edge. */
  ghost predicate HasFacts(S: Setting, i: nat)
    requires ValidSetting(S) && InTree(S.top, i)
  {
    StoredBelow(S.H, S.s, New(S, i), Height(S.top, i))
  }

  ghost function AllFacts(S: Setting): set<NodeFact>
    requires ValidSetting(S)
  {
    TreeFacts(S.H, S.after, S.top)
  }

  /** The facts of the subtree are facts of the whole tree: the node is not inside an edge. */
  ghost predicate Belongs(S: Setting, i: nat)
    requires ValidSetting(S)
  {
    InTree(S.top, i) && TreeFacts(S.H, New(S, i), Height(S.top, i)) <= AllFacts(S)
  }

  // ---------------------------------------------------------------------------
  // Layers
  // ---------------------------------------------------------------------------

  ghost predicate Knows(layers: Layers, k: nat, j: nat) {
    exists a, b :: 0 <= a < k && a < |layers| && 0 <= b < |layers[a]| && layers[a][b].index == j
  }

  /** The node stands for the new leaves below `i`, given the nodes of the layers before its own. */
  ghost predicate Denotes(S: Setting, layers: Layers, i: nat, r: LayeredNode)
    requires ValidSetting(S)
  {
    && InTree(S.top, i) && r.layer <= |layers|
    && var e := NewCode(S, i);
       if e == EMPTY then r.node == EMPTY_NODE
       else
         && r.node.path == e.path && r.node.length == e.length
         && (r.node.value.Some? ==> r.node.value.value == e.bottom && HasFacts(S, i))
         && (r.node.value.None? ==>
               if r.node.length == 0
               then Height(S.top, i) > 0 && Knows(layers, r.layer, Child(i, false)) && Knows(layers, r.layer, Child(i, true))
               else Knows(layers, r.layer, Descend(i, r.node.length, r.node.path)))
  }

  ghost predicate ItemOk(S: Setting, layers: Layers, a: nat, b: nat)
    requires ValidSetting(S)
  {
    a < |layers| && b < |layers[a]| ==>
      Denotes(S, layers, layers[a][b].index, Layered(a, layers[a][b].node)) && Belongs(S, layers[a][b].index)
  }

  ghost predicate LayersOk(S: Setting, layers: Layers)
    requires ValidSetting(S)
  {
    forall a: nat, b: nat {:trigger ItemOk(S, layers, a, b)} :: ItemOk(S, layers, a, b)
  }

  ghost predicate Grows(layers: Layers, more: Layers) {
    |layers| <= |more| && forall a :: 0 <= a < |layers| ==> layers[a] <= more[a]
  }

  lemma {:induction false} KnowsMore(layers: Layers, k: nat, more: Layers, k': nat, j: nat)
    requires Grows(layers, more) && k <= k' && Knows(layers, k, j)
    ensures Knows(more, k', j)
  {
    var a, b :| 0 <= a < k && a < |layers| && 0 <= b < |layers[a]| && layers[a][b].index == j;
    assert more[a][b].index == j;
  }

  lemma {:induction false} DenotesMore(S: Setting, layers: Layers, more: Layers, i: nat, r: LayeredNode, layer: nat)
    requires ValidSetting(S) && Grows(layers, more) && Denotes(S, layers, i, r) && r.layer <= layer <= |more|
    ensures Denotes(S, more, i, Layered(layer, r.node))
  {
    if r.node.value.None? && NewCode(S, i) != EMPTY {
      if r.node.length == 0 {
        KnowsMore(layers, r.layer, more, layer, Child(i, false));
        KnowsMore(layers, r.layer, more, layer, Child(i, true));
      } else {
        KnowsMore(layers, r.layer, more, layer, Descend(i, r.node.length, r.node.path));
      }
    }
  }

  /** set_updated_node */
  function SetUpdated(layers: Layers, j: nat, r: LayeredNode): Layers
    requires r.layer <= |layers|
  {
    var l := if |layers| == r.layer then layers + [[]] else layers;
    l[r.layer := l[r.layer] + [Indexed(j, r.node)]]
  }

  lemma {:induction false} SetUpdatedGrows(layers: Layers, j: nat, r: LayeredNode)
    requires r.layer <= |layers|
    ensures var more := SetUpdated(layers, j, r);
      Grows(layers, more) && r.layer < |more| && Knows(more, r.layer + 1, j)
  {
    var more: Layers := SetUpdated(layers, j, r);
    assert more[r.layer][|more[r.layer]| - 1].index == j;
  }

  lemma {:induction false} SetUpdatedOk(S: Setting, layers: Layers, j: nat, r: LayeredNode)
    requires ValidSetting(S) && LayersOk(S, layers) && Denotes(S, layers, j, r) && Belongs(S, j)
    ensures LayersOk(S, SetUpdated(layers, j, r))
  {
    var more: Layers := SetUpdated(layers, j, r);
    SetUpdatedGrows(layers, j, r);
    forall a: nat, b: nat ensures ItemOk(S, more, a, b) {
      if a < |layers| && b < |layers[a]| {
        assert more[a][b] == layers[a][b] && ItemOk(S, layers, a, b);
        DenotesMore(S, layers, more, layers[a][b].index, Layered(a, layers[a][b].node), a);
      } else if a < |more| && b < |more[a]| {
        assert a == r.layer && more[a][b] == Indexed(j, r.node);
        DenotesMore(S, layers, more, j, r, a);
      }
    }
  }

  // ---------------------------------------------------------------------------
  // Building nodes
  // ---------------------------------------------------------------------------

  lemma {:induction false} NewTells(S: Setting, i: nat)
    requires ValidSetting(S) && InTree(S.top, i)
    ensures var e := NewCode(S, i);
      e.path < Pow2(e.length) && e.length <= Height(S.top, i) && (e == EMPTY <==> e.bottom == 0) && (e == EMPTY <==> AllZero(New(S, i)))
  {
    EncodeShape(S.H, New(S, i), Height(S.top, i), S.n);
  }

  lemma {:induction false} OldTells(S: Setting, i: nat)
    requires ValidSetting(S) && InTree(S.top, i)
    ensures var e := OldCode(S, i);
      e.path < Pow2(e.length) && e.length <= Height(S.top, i) && (e == EMPTY <==> e.bottom == 0)
  {
    EncodeShape(S.H, Old(S, i), Height(S.top, i), S.n);
  }

  /** The node above an edge of `length` steps to `b`. */
  lemma {:induction false} EdgeCode(S: Setting, i: nat, length: nat, path: nat)
    requires ValidSetting(S) && InTree(S.top, i) && length <= Height(S.top, i) && path < Pow2(length)
    requires Sole(New(S, i), Height(S.top, i), length, path)
    ensures var b := Descend(i, length, path);
      && InTree(S.top, b) && Height(S.top, b) == Height(S.top, i) - length
      && NewCode(S, i) == Lengthen(NewCode(S, b), length, path)
      && (HasFacts(S, i) <==> HasFacts(S, b))
  {
    var h := Height(S.top, i);
    DescendBlock(S.after, S.top, i, length, path);
    EdgeOfBottom(S.H, New(S, i), h, S.n, length, path, h - length, NewCode(S, Descend(i, length, path)));
    SoleStored(S.H, S.s, New(S, i), h, S.n, length, path);
  }

  lemma {:induction false} LongerDenotes(S: Setting, layers: Layers, i: nat, b: nat, r: LayeredNode, node: Node)
    requires ValidSetting(S) && InTree(S.top, i) && Denotes(S, layers, b, r) && NewCode(S, b) != EMPTY && !r.node.IsBinary()
    requires node.length >= r.node.length && node.value == r.node.value
    requires NewCode(S, i) == Triplet(node.length, node.path, NewCode(S, b).bottom) && NewCode(S, b).bottom != 0
    requires HasFacts(S, i) <==> HasFacts(S, b)
    requires Descend(b, r.node.length, r.node.path) == Descend(i, node.length, node.path)
    ensures Denotes(S, layers, i, Layered(r.layer, node))
  {}

  lemma {:induction false} EdgeFacts(S: Setting, i: nat, length: nat, path: nat, b: nat, e: Triplet, total: nat, whole: nat)
    requires ValidSetting(S) && InTree(S.top, i) && length <= Height(S.top, i) && path < Pow2(length)
    requires Sole(New(S, i), Height(S.top, i), length, path) && b == Descend(i, length, path)
    requires InTree(S.top, b) && e == NewCode(S, b) && e != EMPTY
    requires total == length + e.length && whole == Shl(path, e.length) + e.path
    ensures NewCode(S, i) == Triplet(total, whole, e.bottom)
    ensures HasFacts(S, i) <==> HasFacts(S, b)
    ensures Descend(b, e.length, e.path) == Descend(i, total, whole)
  {
    EdgeCode(S, i, length, path);
    NewTells(S, b);
    ShlIs(path, e.length);
    DescendTwice(i, path, length, e.path, e.length, total, whole);
  }

  /** An edge over a bottom that is not a binary node. */
  lemma {:induction false} EdgeDenotes(S: Setting, layers: Layers, i: nat, length: nat, path: nat, r: LayeredNode, total: nat, whole: nat)
    requires ValidSetting(S) && InTree(S.top, i) && length <= Height(S.top, i) && path < Pow2(length)
    requires Sole(New(S, i), Height(S.top, i), length, path)
    requires Denotes(S, layers, Descend(i, length, path), r) && !r.node.IsEmpty() && !r.node.IsBinary()
    requires total == length + r.node.length && whole == Shl(path, r.node.length) + r.node.path
    ensures Denotes(S, layers, i, Layered(r.layer, Node(whole, total, r.node.value)))
  {
    var b := Descend(i, length, path);
    DenotesEmpty(S, layers, b, r);
    NewTells(S, b);
    EdgeFacts(S, i, length, path, b, NewCode(S, b), total, whole);
    LongerDenotes(S, layers, i, b, r, Node(whole, total, r.node.value));
  }

  lemma {:induction false} BinaryCode(S: Setting, layers: Layers, b: nat, r: LayeredNode)
    requires ValidSetting(S) && Denotes(S, layers, b, r) && r.node.IsBinary()
    ensures InTree(S.top, b) && NewCode(S, b) == Triplet(0, 0, NewCode(S, b).bottom) && NewCode(S, b) != EMPTY && r.node.path == 0
  {
    NewTells(S, b);
  }

  /** An edge over a binary node that has just been put into a layer. */
  lemma {:induction false} EdgeOverBinary(S: Setting, layers: Layers, i: nat, length: nat, path: nat, r: LayeredNode, more: Layers, total: nat, whole: nat)
    requires ValidSetting(S) && InTree(S.top, i) && 0 < length <= Height(S.top, i) && path < Pow2(length)
    requires Sole(New(S, i), Height(S.top, i), length, path)
    requires Denotes(S, layers, Descend(i, length, path), r) && r.node.IsBinary()
    requires r.layer < |more| && Knows(more, r.layer + 1, Descend(i, length, path))
    requires total == length + r.node.length && whole == Shl(path, r.node.length) + r.node.path
    ensures Denotes(S, more, i, Layered(r.layer + 1, Node(whole, total, None)))
  {
    var b := Descend(i, length, path);
    BinaryCode(S, layers, b, r);
    EdgeFacts(S, i, length, path, b, NewCode(S, b), total, whole);
    assert total == length && whole == path;
    KnownBottom(S, more, i, r.layer + 1, Node(whole, total, None));
  }

  lemma {:induction false} KnownBottom(S: Setting, layers: Layers, i: nat, layer: nat, node: Node)
    requires ValidSetting(S) && InTree(S.top, i) && layer <= |layers| && node.length > 0 && node.value.None?
    requires NewCode(S, i).length == node.length && NewCode(S, i).path == node.path
    requires Knows(layers, layer, Descend(i, node.length, node.path))
    ensures Denotes(S, layers, i, Layered(layer, node))
  {}

  lemma {:induction false} EmptyEdge(S: Setting, layers: Layers, i: nat, length: nat, path: nat, r: LayeredNode)
    requires ValidSetting(S) && InTree(S.top, i) && length <= Height(S.top, i) && path < Pow2(length)
    requires Sole(New(S, i), Height(S.top, i), length, path)
    requires Denotes(S, layers, Descend(i, length, path), r) && r.node.IsEmpty()
    ensures Denotes(S, layers, i, Layered(0, EMPTY_NODE))
  {
    var b := Descend(i, length, path);
    EdgeCode(S, i, length, path);
    NewTells(S, b);
  }

  lemma {:induction false} ChildCodes(S: Setting, i: nat)
    requires ValidSetting(S) && InTree(S.top, i) && Height(S.top, i) > 0
    ensures var l, r := Child(i, false), Child(i, true);
      && InTree(S.top, l) && InTree(S.top, r) && Height(S.top, l) == Height(S.top, r) == Height(S.top, i) - 1
      && NewCode(S, i) == Join(S.H, NewCode(S, l), NewCode(S, r))
  {
    ChildBlock(S.after, S.top, i, false);
    ChildBlock(S.after, S.top, i, true);
  }

  lemma {:induction false} BinaryDenotes(S: Setting, layers: Layers, i: nat, layer: nat)
    requires ValidSetting(S) && InTree(S.top, i) && Height(S.top, i) > 0 && layer <= |layers|
    requires InTree(S.top, Child(i, false)) && NewCode(S, Child(i, false)) != EMPTY
    requires InTree(S.top, Child(i, true)) && NewCode(S, Child(i, true)) != EMPTY
    requires Knows(layers, layer, Child(i, false)) && Knows(layers, layer, Child(i, true))
    ensures Denotes(S, layers, i, Layered(layer, BINARY_NODE))
  {
    ChildCodes(S, i);
    NodeCanonical(S.H, New(S, Child(i, false)), Height(S.top, i) - 1, S.n);
    NodeCanonical(S.H, New(S, Child(i, true)), Height(S.top, i) - 1, S.n);
    BinaryBottom(S.H, NewCode(S, Child(i, false)), NewCode(S, Child(i, true)), S.n);
  }

  /** With one empty child a node is an edge of one step. */
  lemma {:induction false} OneStep(S: Setting, i: nat, right: bool)
    requires ValidSetting(S) && InTree(S.top, i) && Height(S.top, i) > 0
    requires InTree(S.top, Child(i, !right)) && NewCode(S, Child(i, !right)) == EMPTY
    ensures var path := if right then 1 else 0;
      path < Pow2(1) && Sole(New(S, i), Height(S.top, i), 1, path) && Descend(i, 1, path) == Child(i, right)
  {
    var path := if right then 1 else 0;
    assert Pow2(0) == 1 && path == (if right then Pow2(0) else 0) + 0;
    StepInFront(right, 0, 0);
    assert GoesRight(path, 1) == right && PathBelow(path, 1) == 0;
    ChildBlock(S.after, S.top, i, !right);
    NewTells(S, Child(i, !right));
    SoleUp(New(S, i), Height(S.top, i), 1, path, right, 0);
    assert Descend(Child(i, right), 0, 0) == Child(i, right);
  }

  // ---------------------------------------------------------------------------
  // Which nodes are put into layers
  // ---------------------------------------------------------------------------

  lemma {:induction false} HalfFactsAt(H: Hash, leaves: seq<int>, h: nat, n: nat, right: bool)
    requires CollisionFree(H, n) && h + 1 <= n && |leaves| == Pow2(h + 1)
    ensures FactsBelow(H, Half(leaves, h + 1, right), h) <= FactsBelow(H, leaves, h + 1)
  {
    HalfFacts(H, leaves, h + 1, n);
  }

  lemma {:induction false} BlockFacts(H: Hash, leaves: seq<int>, top: nat, n: nat, i: nat, F: set<NodeFact>)
    requires CollisionFree(H, n) && top <= n && |leaves| == Pow2(top) && InTree(top, i) && FactsBelow(H, leaves, top) <= F
    ensures FactsBelow(H, Block(leaves, top, i), Height(top, i)) <= F
    decreases i
  {
    if i > 1 {
      ParentBlock(leaves, top, i);
      BlockFacts(H, leaves, top, n, i / 2, F);
      HalfFactsAt(H, Block(leaves, top, i / 2), Height(top, i), n, i % 2 == 1);
    }
  }

  /** What is below a node is in the tree, even if the node is inside an edge. */
  lemma {:induction false} BelowBelongs(S: Setting, i: nat)
    requires ValidSetting(S) && InTree(S.top, i)
    ensures FactsBelow(S.H, New(S, i), Height(S.top, i)) <= AllFacts(S)
  {
    BlockFacts(S.H, S.after, S.top, S.n, i, AllFacts(S));
  }

  lemma {:induction false} RootBelongs(S: Setting)
    requires ValidSetting(S)
    ensures Belongs(S, 1)
  {}

  /** A node that is no edge belongs to the tree. */
  lemma {:induction false} BinaryBelongs(S: Setting, layers: Layers, i: nat, r: LayeredNode)
    requires ValidSetting(S) && Denotes(S, layers, i, r) && r.node.IsBinary()
    ensures Belongs(S, i)
  {
    BelowBelongs(S, i);
    BinaryCode(S, layers, i, r);
  }

  /** So do two children that are both not empty. */
  lemma {:induction false} ChildrenBelong(S: Setting, i: nat)
    requires ValidSetting(S) && InTree(S.top, i) && Height(S.top, i) > 0
    requires InTree(S.top, Child(i, false)) && NewCode(S, Child(i, false)) != EMPTY
    requires InTree(S.top, Child(i, true)) && NewCode(S, Child(i, true)) != EMPTY
    ensures Belongs(S, Child(i, false)) && Belongs(S, Child(i, true))
  {
    BelowBelongs(S, i);
    ChildBlock(S.after, S.top, i, false);
    ChildBlock(S.after, S.top, i, true);
  }

  lemma {:induction false} DenotesEmpty(S: Setting, layers: Layers, i: nat, r: LayeredNode)
    requires ValidSetting(S) && Denotes(S, layers, i, r)
    ensures r.node.IsEmpty() <==> NewCode(S, i) == EMPTY
  {
    NewTells(S, i);
  }

  // ---------------------------------------------------------------------------
  // Fetched nodes
  // ---------------------------------------------------------------------------

  ghost predicate Set(S: Setting, i: nat)
    requires ValidSetting(S) && InTree(S.top, i)
  {
    Touched(S.top, S.upd, i)
  }

  /** What is fetched for node `i`: a new leaf, a binary node to be updated, or the old node with its hash. */
  ghost function Wanted(S: Setting, i: nat): Node
    requires ValidSetting(S) && InTree(S.top, i)
  {
    var e := OldCode(S, i);
    if i in S.upd then Node(0, 0, Some(S.upd[i]))
    else if Set(S, i) && e.length == 0 then BINARY_NODE
    else Node(e.path, e.length, Some(e.bottom))
  }

  /** The node is fetched, and so is everything below it that the update needs. */
  ghost predicate Fetched(S: Setting, P: map<nat, Node>, i: nat)
    requires ValidSetting(S)
    decreases if InTree(S.top, i) then Height(S.top, i) else 0, 1
  {
    InTree(S.top, i) && i in P && P[i] == Wanted(S, i) && Opened(S, P, i)
  }

  ghost predicate Opened(S: Setting, P: map<nat, Node>, i: nat)
    requires ValidSetting(S) && InTree(S.top, i)
    decreases Height(S.top, i), 0
  {
    var e, h := OldCode(S, i), Height(S.top, i);
    Set(S, i) && h > 0 ==>
      if e.length == 0
      then ChildrenInTree(S, i) && Fetched(S, P, Child(i, false)) && Fetched(S, P, Child(i, true))
      else BottomInTree(S, i) && Fetched(S, P, Descend(i, e.length, e.path))
  }

  ghost predicate ChildrenInTree(S: Setting, i: nat)
    requires ValidSetting(S) && InTree(S.top, i)
  {
    && InTree(S.top, Child(i, false)) && Height(S.top, Child(i, false)) < Height(S.top, i)
    && InTree(S.top, Child(i, true)) && Height(S.top, Child(i, true)) < Height(S.top, i)
  }

  ghost predicate BottomInTree(S: Setting, i: nat)
    requires ValidSetting(S) && InTree(S.top, i)
  {
    var b := Descend(i, OldCode(S, i).length, OldCode(S, i).path);
    InTree(S.top, b) && Height(S.top, b) < Height(S.top, i)
  }

  /** The whole context of the update, on values. */
  ghost predicate Ready(S: Setting, layers: Layers, P: map<nat, Node>) {
    && ValidSetting(S) && LayersOk(S, layers)
    && forall x :: x in S.upd ==> x in P && P[x] == Node(0, 0, Some(S.upd[x]))
  }

  // ---------------------------------------------------------------------------
  // Unchanged nodes and leaves
  // ---------------------------------------------------------------------------

  lemma {:induction false} OldStored(S: Setting, i: nat)
    requires ValidSetting(S) && InTree(S.top, i)
    ensures StoredBelow(S.H, S.s, Old(S, i), Height(S.top, i))
  {
    assert Backed(S, i);
  }

  /** A sibling of an updated node stands for its leaves as it was fetched. */
  lemma {:induction false} SiblingDenotes(S: Setting, layers: Layers, i: nat)
    requires ValidSetting(S) && InTree(S.top, i) && !Set(S, i) && OldCode(S, i) != EMPTY
    ensures Wanted(S, i).value.Some? && Denotes(S, layers, i, Layered(0, Wanted(S, i)))
  {
    UntouchedBlock(S.before, S.after, S.top, S.upd, i);
    OldStored(S, i);
    OwnSet(S, i);
  }

  lemma {:induction false} OwnSet(S: Setting, i: nat)
    requires ValidSetting(S) && InTree(S.top, i)
    ensures i in S.upd ==> Set(S, i)
  {
    if i in S.upd { assert IsBelow(S.top, i, i); }
  }

  lemma {:induction false} LeafDenotes(S: Setting, layers: Layers, i: nat)
    requires ValidSetting(S) && i in S.upd
    ensures InTree(S.top, i) && Denotes(S, layers, i, Layered(0, Node(0, 0, Some(S.upd[i]))))
  {
    assert LeafIs(S.before, S.after, S.top, S.upd, i);
    assert Block(S.after, S.top, i) == [S.upd[i]];
  }

  // ---------------------------------------------------------------------------
  // Down the old tree
  // ---------------------------------------------------------------------------

  lemma {:induction false} OldChildCodes(S: Setting, i: nat)
    requires ValidSetting(S) && InTree(S.top, i) && Height(S.top, i) > 0
    ensures ChildrenInTree(S, i)
    ensures OldCode(S, i) == Join(S.H, OldCode(S, Child(i, false)), OldCode(S, Child(i, true)))
  {
    ChildBlock(S.before, S.top, i, false);
    ChildBlock(S.before, S.top, i, true);
  }

  /** A binary node has two children, which are fetched with it. */
  lemma {:induction false} BinaryKids(S: Setting, P: map<nat, Node>, i: nat)
    requires ValidSetting(S) && InTree(S.top, i) && Height(S.top, i) > 0 && Set(S, i) && Opened(S, P, i)
    requires OldCode(S, i) != EMPTY && OldCode(S, i).length == 0
    ensures ChildrenInTree(S, i)
    ensures OldCode(S, Child(i, false)) != EMPTY && OldCode(S, Child(i, true)) != EMPTY
    ensures Fetched(S, P, Child(i, false)) && Fetched(S, P, Child(i, true))
  {
    OldChildCodes(S, i);
  }

  lemma {:induction false} OldEdge(S: Setting, i: nat, e: Triplet, k: nat, d: nat, prefix: nat, suffix: nat)
    requires ValidSetting(S) && InTree(S.top, i) && e == OldCode(S, i)
    requires k + d == e.length && TwoParts(e.path, prefix, k, suffix, d)
    ensures e.length <= Height(S.top, i) && Sole(Old(S, i), Height(S.top, i), k, prefix)
    ensures InTree(S.top, Descend(i, k, prefix)) && Height(S.top, Descend(i, k, prefix)) == Height(S.top, i) - k
    ensures OldCode(S, Descend(i, k, prefix)) == Triplet(d, suffix, e.bottom)
  {
    var h := Height(S.top, i);
    EncodeFits(S.H, Old(S, i), h);
    EdgeSplits(S.H, Old(S, i), h, S.n, e, k, d, h - k, prefix, suffix);
    DescendBlock(S.before, S.top, i, k, prefix);
    var b := Descend(i, k, prefix);
    assert Old(S, b) == Bottom(Old(S, i), h, k, prefix) && Height(S.top, b) == h - k;
  }

  /** Some steps down an edge that is being updated, everything needed is fetched. */
  lemma {:induction false} IntoEdge(S: Setting, P: map<nat, Node>, i: nat, e: Triplet, k: nat, d: nat, prefix: nat, suffix: nat)
    requires ValidSetting(S) && InTree(S.top, i) && Set(S, i) && Opened(S, P, i) && e == OldCode(S, i)
    requires 0 < k && k + d == e.length && TwoParts(e.path, prefix, k, suffix, d)
    ensures e.length <= Height(S.top, i) && Sole(Old(S, i), Height(S.top, i), k, prefix)
    ensures InTree(S.top, Descend(i, k, prefix)) && Height(S.top, Descend(i, k, prefix)) == Height(S.top, i) - k
    ensures OldCode(S, Descend(i, k, prefix)) == Triplet(d, suffix, e.bottom)
    ensures Opened(S, P, Descend(i, k, prefix)) && (d == 0 ==> Fetched(S, P, Descend(i, k, prefix)))
  {
    OldEdge(S, i, e, k, d, prefix, suffix);
    DescendTwice(i, prefix, k, suffix, d, e.length, e.path);
    SameBottom(S, P, i, e, Descend(i, k, prefix), d, suffix);
  }

  /** A node inside an edge, or at its end, has the same bottom. */
  lemma {:induction false} SameBottom(S: Setting, P: map<nat, Node>, i: nat, e: Triplet, b: nat, length: nat, path: nat)
    requires ValidSetting(S) && InTree(S.top, i) && Set(S, i) && Opened(S, P, i) && e == OldCode(S, i) && 0 < e.length <= Height(S.top, i)
    requires InTree(S.top, b) && OldCode(S, b) == Triplet(length, path, e.bottom)
    requires Descend(b, length, path) == Descend(i, e.length, e.path)
    ensures Opened(S, P, b) && (length == 0 ==> Fetched(S, P, b))
  {
    var c := Descend(i, e.length, e.path);
    assert Fetched(S, P, c);
    if length == 0 { assert Descend(b, 0, path) == b; }
    OldTells(S, b);
    DescendBelow(S.top, 0, b, length, path);
  }

  /** The node that the code makes for the rest of an edge, or has fetched, is the one wanted there. */
  lemma {:induction false} RestOfEdge(S: Setting, P: map<nat, Node>, b: nat, node: Node)
    requires ValidSetting(S) && InTree(S.top, b) && node == Node(OldCode(S, b).path, OldCode(S, b).length, Some(OldCode(S, b).bottom))
    requires OldCode(S, b).length == 0 ==> Fetched(S, P, b)
    ensures node.IsEdge() ==> node == Wanted(S, b)
    ensures !node.IsEdge() ==> b in P && P[b] == Wanted(S, b)
  {
    EncodeFits(S.H, Old(S, b), Height(S.top, b));
  }

  // ---------------------------------------------------------------------------
  // Where the leaves to be set are
  // ---------------------------------------------------------------------------

  lemma {:induction false} ZeroSole(leaves: seq<int>, h: nat, length: nat, path: nat)
    requires length <= h && |leaves| == Pow2(h) && AllZero(leaves)
    ensures Sole(leaves, h, length, path)
    decreases length
  {
    if length > 0 {
      AllZeroHalves(leaves, h);
      ZeroSole(Half(leaves, h, GoesRight(path, length)), h - 1, length - 1, PathBelow(path, length));
    }
  }

  /** The leaves to be set, below an edge along which the old tree is empty elsewhere. */
  lemma {:induction false} SetBelow(S: Setting, i: nat, idx: seq<nat>, length: nat, path: nat)
    requires ValidSetting(S) && InTree(S.top, i) && Lists(idx, S.top, S.upd, i) && length <= Height(S.top, i)
    requires Sole(Old(S, i), Height(S.top, i), length, path) && InTree(S.top, Descend(i, length, path))
    requires forall x :: x in idx ==> IsBelow(S.top, x, Descend(i, length, path))
    ensures Sole(New(S, i), Height(S.top, i), length, path)
    ensures Lists(idx, S.top, S.upd, Descend(i, length, path))
  {
    SoleStays(S.before, S.after, S.top, S.upd, i, length, path);
    forall x: nat | x in S.upd && IsBelow(S.top, x, Descend(i, length, path)) ensures x in idx {
      DescendBelow(S.top, x, i, length, path);
    }
  }

  lemma {:induction false} OldBlockBelow(S: Setting, i: nat, length: nat, path: nat)
    requires ValidSetting(S) && InTree(S.top, i) && length <= Height(S.top, i) && AllZero(Old(S, i))
    ensures var b := Descend(i, length, path); InTree(S.top, b) && AllZero(Old(S, b))
    ensures Sole(Old(S, i), Height(S.top, i), length, path)
  {
    DescendBlock(S.before, S.top, i, length, path);
    ZeroSole(Old(S, i), Height(S.top, i), length, path);
    ZeroBottom(Old(S, i), Height(S.top, i), length, path);
  }

  lemma {:induction false} ZeroBottom(leaves: seq<int>, h: nat, length: nat, path: nat)
    requires length <= h && |leaves| == Pow2(h) && AllZero(leaves)
    ensures AllZero(Bottom(leaves, h, length, path))
    decreases length
  {
    if length > 0 {
      AllZeroHalves(leaves, h);
      ZeroBottom(Half(leaves, h, GoesRight(path, length)), h - 1, length - 1, PathBelow(path, length));
    }
  }

  // ---------------------------------------------------------------------------
  // The cases of the update
  // ---------------------------------------------------------------------------

  lemma {:induction false} BothSides(S: Setting, i: nat, idx: seq<nat>)
    requires ValidSetting(S) && InTree(S.top, i) && Height(S.top, i) > 0 && Lists(idx, S.top, S.upd, i) && idx != []
    ensures ChildrenInTree(S, i)
    ensures var (l, r) := SplitLeaves(i, Height(S.top, i), idx);
      && Lists(l, S.top, S.upd, Child(i, false)) && Lists(r, S.top, S.upd, Child(i, true))
      && (OnBothSides(Height(S.top, i), idx) ==> l != [] && r != [])
      && (OnSide(Height(S.top, i), false, idx) <==> l != []) && (OnSide(Height(S.top, i), true, idx) <==> r != [])
  {
    var (l, r) := SplitLeaves(i, Height(S.top, i), idx);
    SplitIs(idx, S.top, S.upd, i);
    SplitJoins(i, Height(S.top, i), idx);
    ChildInTree(S.top, i, false);
    ChildInTree(S.top, i, true);
    Sides(l, r, idx, S.top, S.upd, i);
  }

  /** The first leaf tells whether there are leaves on the left, the last one whether on the right. */
  lemma {:induction false} Sides(l: seq<nat>, r: seq<nat>, idx: seq<nat>, top: nat, upd: map<nat, int>, i: nat)
    requires InTree(top, i) && Height(top, i) > 0 && Lists(idx, top, upd, i) && idx == l + r && idx != []
    requires InTree(top, Child(i, false)) && Lists(l, top, upd, Child(i, false))
    requires InTree(top, Child(i, true)) && Lists(r, top, upd, Child(i, true))
    ensures l != [] <==> !RightBit(Height(top, i), idx[0])
    ensures r != [] <==> RightBit(Height(top, i), idx[|idx| - 1])
  {
    ListEnds(idx, top, upd, i);
    SideBit(top, idx[0], i);
    SideBit(top, idx[|idx| - 1], i);
    FirstSide(l, r, idx);
  }

  lemma {:induction false} FirstSide(l: seq<nat>, r: seq<nat>, idx: seq<nat>)
    requires idx == l + r && idx != []
    ensures l != [] ==> idx[0] in l
    ensures r != [] ==> idx[|idx| - 1] in r
    ensures l == [] ==> idx[0] in r
    ensures r == [] ==> idx[|idx| - 1] in l
  {
    if l != [] { assert idx[0] == l[0]; }
    if r != [] { assert idx[|idx| - 1] == r[|r| - 1]; }
  }

  lemma {:induction false} OldZeroChildren(S: Setting, i: nat)
    requires ValidSetting(S) && InTree(S.top, i) && Height(S.top, i) > 0 && AllZero(Old(S, i))
    ensures ChildrenInTree(S, i) && AllZero(Old(S, Child(i, false))) && AllZero(Old(S, Child(i, true)))
  {
    ChildBlock(S.before, S.top, i, false);
    ChildBlock(S.before, S.top, i, true);
    AllZeroHalves(Old(S, i), Height(S.top, i));
  }

  /** Leaves set on one side of an empty node: an edge to their lowest common ancestor. */
  lemma {:induction false} EmptyToLca(S: Setting, i: nat, idx: seq<nat>, length: nat, path: int)
    requires ValidSetting(S) && InTree(S.top, i) && Height(S.top, i) > 0 && Lists(idx, S.top, S.upd, i) && idx != []
    requires AllZero(Old(S, i)) && !OnBothSides(Height(S.top, i), idx) && LcaHeight(idx) <= Height(S.top, i)
    requires (length, path) == PathToLca(i, Height(S.top, i), idx)
    ensures 0 < length <= Height(S.top, i) && 0 <= path < Pow2(length)
    ensures var b := Descend(i, length, path);
      && b == Shl(i, length) + path && InTree(S.top, b) && Height(S.top, b) == Height(S.top, i) - length
      && AllZero(Old(S, b)) && Lists(idx, S.top, S.upd, b) && Sole(New(S, i), Height(S.top, i), length, path)
  {
    LcaIs(idx, S.top, S.upd, i);
    DescendIs(i, length, path);
    OldBlockBelow(S, i, length, path);
    SetBelow(S, i, idx, length, path);
  }

  /** The first step of an edge. */
  lemma {:induction false} EdgeFirst(S: Setting, P: map<nat, Node>, i: nat, e: Triplet, m: nat, right: bool)
    requires ValidSetting(S) && InTree(S.top, i) && Set(S, i) && Opened(S, P, i) && e == OldCode(S, i) && e.length > 0
    requires m == Pow2(e.length - 1) && right == GoesRight(e.path, e.length)
    ensures Height(S.top, i) > 0 && ChildrenInTree(S, i) && AllZero(Old(S, Child(i, !right)))
    ensures OldCode(S, Child(i, right)) == Triplet(e.length - 1, e.path % m, e.bottom)
    ensures Opened(S, P, Child(i, right)) && (e.length == 1 ==> Fetched(S, P, Child(i, right)))
  {
    EncodeFits(S.H, Old(S, i), Height(S.top, i));
    FirstBit(e.path, e.length);
    Divided(e.path, e.length, 1, m);
    var prefix := if right then 1 else 0;
    IntoEdge(S, P, i, e, 1, e.length - 1, prefix, e.path % m);
    assert Pow2(0) == 1;
    StepInFront(right, 0, 0);
    assert Descend(i, 1, prefix) == Child(i, right);
    OldChildCodes(S, i);
    ChildBlock(S.before, S.top, i, !right);
    SoleUp(Old(S, i), Height(S.top, i), 1, prefix, right, 0);
  }

  /** The leaves to be set are below a node on the way to their lowest common ancestor. */
  lemma {:induction false} LcaPrefix(S: Setting, i: nat, idx: seq<nat>, a: nat, p: nat, k: nat, front: nat, rest: nat)
    requires ValidSetting(S) && InTree(S.top, i) && Lists(idx, S.top, S.upd, i)
    requires k <= a <= Height(S.top, i) && TwoParts(p, front, k, rest, a - k) && InTree(S.top, Descend(i, a, p))
    requires forall x :: x in idx ==> IsBelow(S.top, x, Descend(i, a, p))
    ensures InTree(S.top, Descend(i, k, front)) && forall x :: x in idx ==> IsBelow(S.top, x, Descend(i, k, front))
  {
    DescendBelow(S.top, 0, i, k, front);
    forall x | x in idx ensures IsBelow(S.top, x, Descend(i, k, front)) {
      OnTheWay(S.top, i, front, k, rest, a - k, a, p, x);
    }
  }

  lemma {:induction false} FirstOnSide(S: Setting, i: nat, idx: seq<nat>, right: bool)
    requires ValidSetting(S) && InTree(S.top, i) && Height(S.top, i) > 0 && Lists(idx, S.top, S.upd, i) && idx != []
    requires !OnSide(Height(S.top, i), !right, idx)
    ensures InTree(S.top, Child(i, right)) && IsBelow(S.top, idx[0], Child(i, right))
  {
    ListEnds(idx, S.top, S.upd, i);
    SideBit(S.top, idx[0], i);
  }

  /** Leaves set on the side of the edge only: the path to them begins like the edge. */
  lemma {:induction false} SameFirstStep(S: Setting, i: nat, idx: seq<nat>, a: nat, p: nat, right: bool)
    requires ValidSetting(S) && InTree(S.top, i) && Height(S.top, i) > 0 && Lists(idx, S.top, S.upd, i) && idx != []
    requires !OnSide(Height(S.top, i), !right, idx) && 0 < a <= Height(S.top, i) && p < Pow2(a)
    requires InTree(S.top, Descend(i, a, p)) && forall x :: x in idx ==> IsBelow(S.top, x, Descend(i, a, p))
    ensures GoesRight(p, a) == right
  {
    FirstOnSide(S, i, idx, right);
    assert idx[0] in idx;
    FirstStepBelow(S.top, i, a, p, idx[0]);
    BelowChild(S.top, idx[0], i, right);
  }

  lemma {:induction false} FirstStepBelow(top: nat, i: nat, a: nat, p: nat, x: nat)
    requires InTree(top, i) && 0 < a <= Height(top, i) && InTree(top, Descend(i, a, p)) && IsBelow(top, x, Descend(i, a, p))
    ensures InTree(top, Child(i, GoesRight(p, a))) && IsBelow(top, x, Child(i, GoesRight(p, a)))
  {
    ChildInTree(top, i, GoesRight(p, a));
    DescendBelow(top, x, Child(i, GoesRight(p, a)), a - 1, PathBelow(p, a));
  }

  /** How much of an edge is kept: as far as it leads towards all leaves to be set. */
  lemma {:induction false} KeptLength(S: Setting, i: nat, e: Triplet, idx: seq<nat>, a: nat, p: nat, suffix: int)
    requires ValidSetting(S) && InTree(S.top, i) && e == OldCode(S, i) && e.length > 0
    requires Height(S.top, i) > 0 && Lists(idx, S.top, S.upd, i) && idx != [] && LcaHeight(idx) <= Height(S.top, i)
    requires !OnSide(Height(S.top, i), !GoesRight(e.path, e.length), idx)
    requires (a, p as int) == PathToLca(i, Height(S.top, i), idx) && suffix == SuffixLength(p, a, e.path, e.length)
    ensures 0 <= suffix < e.length <= Height(S.top, i) && e.length - suffix <= a <= Height(S.top, i) && p < Pow2(a)
    ensures e.path / Pow2(suffix) == p / Pow2(a - (e.length - suffix))
    ensures InTree(S.top, Descend(i, a, p)) && forall x :: x in idx ==> IsBelow(S.top, x, Descend(i, a, p))
  {
    EncodeFits(S.H, Old(S, i), Height(S.top, i));
    LcaIs(idx, S.top, S.upd, i);
    SameFirstStep(S, i, idx, a, p, GoesRight(e.path, e.length));
    CommonPrefix(p, a, e.path, e.length);
  }

  /** The node at the end of the part that is kept. */
  lemma {:induction false} KeptPart(S: Setting, P: map<nat, Node>, i: nat, e: Triplet, idx: seq<nat>, a: nat, p: nat, k: nat, d: nat,
                 prefix: nat, suffix: nat, rest: nat)
    requires ValidSetting(S) && InTree(S.top, i) && Opened(S, P, i) && e == OldCode(S, i)
    requires Lists(idx, S.top, S.upd, i) && idx != [] && 0 < k <= a <= Height(S.top, i) && k + d == e.length
    requires InTree(S.top, Descend(i, a, p)) && forall x :: x in idx ==> IsBelow(S.top, x, Descend(i, a, p))
    requires TwoParts(e.path, prefix, k, suffix, d) && TwoParts(p, prefix, k, rest, a - k)
    ensures e.length <= Height(S.top, i)
    ensures InTree(S.top, Descend(i, k, prefix)) && Height(S.top, Descend(i, k, prefix)) == Height(S.top, i) - k
    ensures OldCode(S, Descend(i, k, prefix)) == Triplet(d, suffix, e.bottom)
    ensures Opened(S, P, Descend(i, k, prefix)) && (d == 0 ==> Fetched(S, P, Descend(i, k, prefix)))
    ensures Sole(New(S, i), Height(S.top, i), k, prefix) && Lists(idx, S.top, S.upd, Descend(i, k, prefix))
  {
    ListsTouched(idx, S.top, S.upd, i);
    IntoEdge(S, P, i, e, k, d, prefix, suffix);
    LcaPrefix(S, i, idx, a, p, k, prefix, rest);
    SetBelow(S, i, idx, k, prefix);
  }

  /** A node with leaves to be set that is neither a leaf nor binary is an edge. */
  lemma {:induction false} WantedEdge(S: Setting, i: nat, node: Node)
    requires ValidSetting(S) && InTree(S.top, i) && Height(S.top, i) > 0 && Set(S, i) && OldCode(S, i) != EMPTY
    requires node == Wanted(S, i)
    ensures if node.IsBinary() then OldCode(S, i).length == 0
      else node.IsEdge() && node.value.Some? && node.value.value != 0
           && OldCode(S, i) == Triplet(node.length, node.path, node.value.value)
  {
    OldTells(S, i);
  }

  // ---------------------------------------------------------------------------
  // Fetching
  // ---------------------------------------------------------------------------

  datatype SubTree = SubTree(index: nat, rootHash: int, leafIndices: seq<nat>)

  /** A subtree of the old tree that is not empty, with its hash and the leaves to be set below it. */
  ghost predicate IsSubTree(S: Setting, st: SubTree)
    requires ValidSetting(S)
  {
    && InTree(S.top, st.index) && OldCode(S, st.index) != EMPTY
    && st.rootHash == HashNode(S.H, OldCode(S, st.index))
    && Stored(S.H, S.s, Old(S, st.index), Height(S.top, st.index))
    && Lists(st.leafIndices, S.top, S.upd, st.index)
  }

  /** Every fetched node is the one wanted. */
  ghost predicate AllWanted(S: Setting, P: map<nat, Node>)
    requires ValidSetting(S)
  {
    forall j :: j in P ==> InTree(S.top, j) && P[j] == Wanted(S, j)
  }

  lemma {:induction false} WantedMore(S: Setting, P: map<nat, Node>, i: nat, node: Node)
    requires ValidSetting(S) && AllWanted(S, P) && InTree(S.top, i) && node == Wanted(S, i)
    ensures AllWanted(S, P[i := node])
  {}

  ghost predicate Waiting(next: seq<SubTree>, j: nat) {
    exists q :: 0 <= q < |next| && next[q].index == j
  }

  /** The node is a fetched leaf, or waits to be opened. */
  ghost predicate Covered(S: Setting, P: map<nat, Node>, next: seq<SubTree>, j: nat)
    requires ValidSetting(S)
  {
    InTree(S.top, j) && ((Height(S.top, j) == 0 && j in P) || Waiting(next, j))
  }

  /** The node is fetched, and what it needs is covered. */
  ghost predicate Handled(S: Setting, P: map<nat, Node>, next: seq<SubTree>, i: nat)
    requires ValidSetting(S)
  {
    && InTree(S.top, i) && i in P
    && (Set(S, i) && Height(S.top, i) > 0 ==>
          if OldCode(S, i).length == 0
          then ChildrenInTree(S, i) && Covered(S, P, next, Child(i, false)) && Covered(S, P, next, Child(i, true))
          else BottomInTree(S, i) && Covered(S, P, next, Descend(i, OldCode(S, i).length, OldCode(S, i).path)))
  }

  lemma {:induction false} CoveredMore(S: Setting, P: map<nat, Node>, next: seq<SubTree>, P': map<nat, Node>, next': seq<SubTree>, j: nat)
    requires ValidSetting(S) && P.Keys <= P'.Keys && (forall q :: 0 <= q < |next| ==> next[q] in next') && Covered(S, P, next, j)
    ensures Covered(S, P', next', j)
  {
    if Waiting(next, j) {
      var q :| 0 <= q < |next| && next[q].index == j;
      var q' :| 0 <= q' < |next'| && next'[q'] == next[q];
    } else {
      assert j in P.Keys;
    }
  }

  lemma {:induction false} HandledMore(S: Setting, P: map<nat, Node>, next: seq<SubTree>, P': map<nat, Node>, next': seq<SubTree>, i: nat)
    requires ValidSetting(S) && P.Keys <= P'.Keys && (forall q :: 0 <= q < |next| ==> next[q] in next') && Handled(S, P, next, i)
    ensures Handled(S, P', next', i)
  {
    assert i in P.Keys;
    if Set(S, i) && Height(S.top, i) > 0 {
      if OldCode(S, i).length == 0 {
        CoveredMore(S, P, next, P', next', Child(i, false));
        CoveredMore(S, P, next, P', next', Child(i, true));
      } else {
        CoveredMore(S, P, next, P', next', Descend(i, OldCode(S, i).length, OldCode(S, i).path));
      }
    }
  }

  lemma {:induction false} ChildrenHandled(S: Setting, P: map<nat, Node>, next: seq<SubTree>, i: nat)
    requires ValidSetting(S) && InTree(S.top, i) && i in P && OldCode(S, i).length == 0 && ChildrenInTree(S, i)
    requires Covered(S, P, next, Child(i, false)) && Covered(S, P, next, Child(i, true))
    ensures Handled(S, P, next, i)
  {}

  lemma {:induction false} CoveredFetched(S: Setting, P: map<nat, Node>, next: seq<SubTree>, j: nat)
    requires ValidSetting(S) && AllWanted(S, P) && Covered(S, P, next, j)
    requires forall q :: 0 <= q < |next| ==> Fetched(S, P, next[q].index)
    ensures Fetched(S, P, j)
  {
    if Waiting(next, j) { var q :| 0 <= q < |next| && next[q].index == j; }
  }

  /** When all that waits is fetched, so is what was handled. */
  lemma {:induction false} HandledFetched(S: Setting, P: map<nat, Node>, next: seq<SubTree>, i: nat)
    requires ValidSetting(S) && AllWanted(S, P) && Handled(S, P, next, i)
    requires forall q :: 0 <= q < |next| ==> Fetched(S, P, next[q].index)
    ensures Fetched(S, P, i)
  {
    if Set(S, i) && Height(S.top, i) > 0 {
      if OldCode(S, i).length == 0 {
        CoveredFetched(S, P, next, Child(i, false));
        CoveredFetched(S, P, next, Child(i, true));
      } else {
        CoveredFetched(S, P, next, Descend(i, OldCode(S, i).length, OldCode(S, i).path));
      }
    }
  }

  /** The first `k` subtrees of the list are handled. */
  ghost predicate AllHandled(S: Setting, P: map<nat, Node>, next: seq<SubTree>, list: seq<SubTree>, k: nat)
    requires ValidSetting(S) && k <= |list|
  {
    forall q :: 0 <= q < k ==> Handled(S, P, next, list[q].index)
  }

  lemma {:induction false} AllHandledMore(S: Setting, P: map<nat, Node>, next: seq<SubTree>, P': map<nat, Node>, next': seq<SubTree>, list: seq<SubTree>, k: nat)
    requires ValidSetting(S) && k <= |list| && P.Keys <= P'.Keys && (forall q :: 0 <= q < |next| ==> next[q] in next')
    requires AllHandled(S, P, next, list, k)
    ensures AllHandled(S, P', next', list, k)
  {
    forall q | 0 <= q < k ensures Handled(S, P', next', list[q].index) {
      HandledMore(S, P, next, P', next', list[q].index);
    }
  }

  /** One more subtree is handled. */
  lemma {:induction false} HandledStep(S: Setting, P: map<nat, Node>, before: seq<SubTree>, P': map<nat, Node>, more: seq<SubTree>, next: seq<SubTree>,
                    list: seq<SubTree>, k: nat)
    requires ValidSetting(S) && k < |list| && P.Keys <= P'.Keys && next == before + more
    requires AllHandled(S, P, before, list, k) && Handled(S, P', more, list[k].index)
    ensures AllHandled(S, P', next, list, k + 1)
  {
    AllHandledMore(S, P, before, P', next, list, k);
    HandledMore(S, P', more, P', next, list[k].index);
  }

  /** All subtrees of the list are inner subtrees of a height up to `bound`. */
  ghost predicate AllSubTrees(S: Setting, list: seq<SubTree>, bound: int)
    requires ValidSetting(S)
  {
    forall q :: 0 <= q < |list| ==> IsSubTree(S, list[q]) && 0 < Height(S.top, list[q].index) <= bound
  }

  lemma {:induction false} JoinSubTrees(S: Setting, a: seq<SubTree>, b: seq<SubTree>, bound: int)
    requires ValidSetting(S) && AllSubTrees(S, a, bound) && AllSubTrees(S, b, bound)
    ensures AllSubTrees(S, a + b, bound)
  {}

  lemma {:induction false} AllFetched(S: Setting, P: map<nat, Node>, next: seq<SubTree>, list: seq<SubTree>)
    requires ValidSetting(S) && AllWanted(S, P) && AllHandled(S, P, next, list, |list|)
    requires forall q :: 0 <= q < |next| ==> Fetched(S, P, next[q].index)
    ensures forall q :: 0 <= q < |list| ==> Fetched(S, P, list[q].index)
  {
    forall q | 0 <= q < |list| ensures Fetched(S, P, list[q].index) { HandledFetched(S, P, next, list[q].index); }
  }

  /** What is stored under the hash of a subtree that is an edge. */
  lemma {:induction false} StoredEdge(S: Setting, st: SubTree, e: Triplet)
    requires ValidSetting(S) && IsSubTree(S, st) && e == OldCode(S, st.index) && e.length > 0
    ensures st.rootHash in S.s && S.s[st.rootHash] == EdgeFact(e.bottom, e.path, e.length)
  {
    assert HashFact(S.H, EdgeFact(e.bottom, e.path, e.length)) == st.rootHash;
  }

  ghost function OldRoot(S: Setting, i: nat): int
    requires ValidSetting(S) && InTree(S.top, i)
  {
    HashNode(S.H, OldCode(S, i))
  }

  /** And under that of a binary node. */
  lemma {:induction false} StoredBinary(S: Setting, st: SubTree)
    requires ValidSetting(S) && IsSubTree(S, st) && Height(S.top, st.index) > 0 && OldCode(S, st.index).length == 0
    ensures ChildrenInTree(S, st.index) && OldCode(S, st.index) == Triplet(0, 0, st.rootHash)
    ensures st.rootHash in S.s
    ensures S.s[st.rootHash] == BinaryFact(OldRoot(S, Child(st.index, false)), OldRoot(S, Child(st.index, true)))
  {
    var i, h := st.index, Height(S.top, st.index);
    ChildBlock(S.before, S.top, i, false);
    ChildBlock(S.before, S.top, i, true);
    OldTells(S, i);
    StoredHalves(S.H, S.s, Old(S, i), h, S.n);
    OldChildCodes(S, i);
  }

  /** The children of a binary subtree. */
  lemma {:induction false} ChildSubTree(S: Setting, st: SubTree, right: bool, hash: int, idx: seq<nat>)
    requires ValidSetting(S) && IsSubTree(S, st) && Height(S.top, st.index) > 0 && OldCode(S, st.index).length == 0
    requires InTree(S.top, Child(st.index, right)) && Lists(idx, S.top, S.upd, Child(st.index, right))
    requires hash == OldRoot(S, Child(st.index, right))
    ensures IsSubTree(S, SubTree(Child(st.index, right), hash, idx))
    ensures Height(S.top, Child(st.index, right)) == Height(S.top, st.index) - 1
  {
    var i, h := st.index, Height(S.top, st.index);
    ChildBlock(S.before, S.top, i, false);
    ChildBlock(S.before, S.top, i, true);
    OldChildCodes(S, i);
    StoredHalves(S.H, S.s, Old(S, i), h, S.n);
  }

  lemma {:induction false} ChildSubTrees(S: Setting, st: SubTree, leftHash: int, rightHash: int)
    requires ValidSetting(S) && IsSubTree(S, st) && Height(S.top, st.index) > 0 && OldCode(S, st.index).length == 0
    requires st.leafIndices != [] && ChildrenInTree(S, st.index)
    requires leftHash == OldRoot(S, Child(st.index, false)) && rightHash == OldRoot(S, Child(st.index, true))
    ensures var (l, r) := SplitLeaves(st.index, Height(S.top, st.index), st.leafIndices);
      && IsSubTree(S, SubTree(Child(st.index, false), leftHash, l))
      && IsSubTree(S, SubTree(Child(st.index, true), rightHash, r))
  {
    BothSides(S, st.index, st.leafIndices);
    var (l, r) := SplitLeaves(st.index, Height(S.top, st.index), st.leafIndices);
    ChildSubTree(S, st, false, leftHash, l);
    ChildSubTree(S, st, true, rightHash, r);
  }

  /** The bottom node of an old edge. */
  lemma {:induction false} OldBottom(S: Setting, i: nat, e: Triplet, b: nat)
    requires ValidSetting(S) && InTree(S.top, i) && e == OldCode(S, i) && e.length > 0
    requires b == Shl(i, e.length) + e.path
    ensures e.length <= Height(S.top, i) && b == Descend(i, e.length, e.path)
    ensures InTree(S.top, b) && Height(S.top, b) == Height(S.top, i) - e.length
    ensures OldCode(S, b) == Triplet(0, 0, e.bottom)
  {
    OldTells(S, i);
    DescendIs(i, e.length, e.path);
    OldEdge(S, i, e, e.length, 0, e.path, 0);
  }

  /** The bottom of a subtree that is an edge. */
  lemma {:induction false} BottomSubTree(S: Setting, st: SubTree, e: Triplet, b: nat, idx: seq<nat>)
    requires ValidSetting(S) && IsSubTree(S, st) && e == OldCode(S, st.index) && e.length > 0
    requires b == Shl(st.index, e.length) + e.path && e.length <= Height(S.top, st.index)
    requires idx == BottomLeaves(st.leafIndices, b, Height(S.top, st.index) - e.length)
    ensures b == Descend(st.index, e.length, e.path) && BottomInTree(S, st.index)
    ensures IsSubTree(S, SubTree(b, e.bottom, idx)) && Height(S.top, b) == Height(S.top, st.index) - e.length
  {
    OldBottom(S, st.index, e, b);
    OldTells(S, st.index);
    BottomLeavesAre(st.leafIndices, S.top, S.upd, st.index, e.length, e.path);
    BottomIsSubTree(S, b, e.bottom, idx);
  }

  lemma {:induction false} BottomIsSubTree(S: Setting, b: nat, bottom: int, idx: seq<nat>)
    requires ValidSetting(S) && InTree(S.top, b) && OldCode(S, b) == Triplet(0, 0, bottom) && bottom != 0 && Lists(idx, S.top, S.upd, b)
    ensures IsSubTree(S, SubTree(b, bottom, idx))
  {
    OldStored(S, b);
  }

  /** set_leaf gives the node wanted at a leaf. */
  lemma {:induction false} LeafWanted(S: Setting, st: SubTree)
    requires ValidSetting(S) && IsSubTree(S, st) && Height(S.top, st.index) == 0
    ensures st.leafIndices == [] ==> Wanted(S, st.index) == Node(0, 0, Some(st.rootHash))
    ensures st.leafIndices != [] ==> st.leafIndices == [st.index] && st.index in S.upd && Wanted(S, st.index) == Node(0, 0, Some(S.upd[st.index]))
  {
    ListsTouched(st.leafIndices, S.top, S.upd, st.index);
    OwnSet(S, st.index);
    if st.leafIndices != [] { LeafList(st.leafIndices, S.top, S.upd, st.index); }
  }

  lemma {:induction false} InnerWanted(S: Setting, st: SubTree)
    requires ValidSetting(S) && IsSubTree(S, st) && Height(S.top, st.index) > 0
    ensures var e := OldCode(S, st.index);
      Wanted(S, st.index) == if e.length == 0 && st.leafIndices != [] then BINARY_NODE else Node(e.path, e.length, Some(e.bottom))
    ensures Set(S, st.index) <==> st.leafIndices != []
  {
    ListsTouched(st.leafIndices, S.top, S.upd, st.index);
  }
}
