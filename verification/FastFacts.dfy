/**
 Hashing the layers of the fast update: each node has the hash of its leaves, and the facts that come
 out make up the new tree (calculate_inner_node_facts in
 src/starkware/starkware_utils/commitment_tree/patricia_tree/fast_patricia_update.py).
 */
module FastFacts {
  import opened Common
  import opened PatriciaEncoding
  import opened PatriciaBuild
  import opened EdgePaths
  import opened TreeIndex
  import opened FastNodes

  ghost function NewRoot(S: Setting, i: nat): int
    requires ValidSetting(S) && InTree(S.top, i)
  {
    Root(S.H, New(S, i), Height(S.top, i))
  }

  /** All facts of the new tree below `i`, its own included. */
  ghost predicate Complete(S: Setting, G: Preimages, i: nat)
    requires ValidSetting(S) && InTree(S.top, i)
  {
    Stored(S.H, S.s + G, New(S, i), Height(S.top, i))
  }

  /** The first `k` layers are hashed, and their facts are in `G`. */
  ghost predicate Hashed(S: Setting, layers: Layers, k: nat, hashes: map<nat, int>, G: Preimages)
    requires ValidSetting(S)
  {
    forall j: nat {:trigger Knows(layers, k, j)} :: Knows(layers, k, j) ==> HashedNode(S, j, hashes, G)
  }

  ghost predicate HashedNode(S: Setting, j: nat, hashes: map<nat, int>, G: Preimages)
    requires ValidSetting(S)
  {
    InTree(S.top, j) && j in hashes && hashes[j] == NewRoot(S, j) && Complete(S, G, j)
  }

  /** What calculate_fact reads is there. */
  ghost predicate Readable(item: IndexedNode, hashes: map<nat, int>) {
    && (item.node.IsBinary() ==> 2 * item.index in hashes && 2 * item.index + 1 in hashes)
    && (item.node.IsEdge() && item.node.value.None? ==> Shl(item.index, item.node.length) + item.node.path in hashes)
  }

  /** The bottom hash of an edge: its value, or that of the bottom node. */
  function BottomHash(item: IndexedNode, hashes: map<nat, int>): int
    requires Readable(item, hashes) && item.node.IsEdge()
  {
    if item.node.value.Some? then item.node.value.value else hashes[Shl(item.index, item.node.length) + item.node.path]
  }

  /** The fact of a node; None for a leaf and for an unchanged node. */
  function FactOf(item: IndexedNode, hashes: map<nat, int>): Option<NodeFact>
    requires Readable(item, hashes)
  {
    if item.node.IsBinary() then Some(BinaryFact(hashes[2 * item.index], hashes[2 * item.index + 1]))
    else if item.node.IsEdge() then Some(EdgeFact(BottomHash(item, hashes), item.node.path, item.node.length))
    else None
  }

  function HashOf(H: Hash, item: IndexedNode, hashes: map<nat, int>): int
    requires Readable(item, hashes)
  {
    var f := FactOf(item, hashes);
    if f.Some? then HashFact(H, f.value) else item.node.value.value
  }

  function Record(H: Hash, G: Preimages, f: Option<NodeFact>): Preimages {
    if f.Some? then G[HashFact(H, f.value) := f.value] else G
  }

  // ---------------------------------------------------------------------------
  // One node
  // ---------------------------------------------------------------------------

  /** Facts once stored stay stored. */
  lemma {:induction false} CompleteMore(S: Setting, G: Preimages, G': Preimages, i: nat)
    requires ValidSetting(S) && InTree(S.top, i) && Complete(S, G, i) && Extends(S.s + G, S.s + G')
    ensures Complete(S, G', i)
  {
    StoredExtends(S.H, S.s + G, S.s + G', New(S, i), Height(S.top, i));
  }

  lemma {:induction false} RecordExtends(S: Setting, G: Preimages, f: Option<NodeFact>)
    requires ValidSetting(S) && WellKeyed(S.H, G, S.n) && (f.Some? ==> ValidFact(f.value, S.n))
    ensures var G' := Record(S.H, G, f);
      && WellKeyed(S.H, G', S.n) && Extends(S.s + G, S.s + G')
      && (f.Some? ==> Holds(S.H, S.s + G', f.value))
  {
    var G' := Record(S.H, G, f);
    if f.Some? {
      UnionExtends(S.H, G, map[HashFact(S.H, f.value) := f.value], S.n);
      assert G + map[HashFact(S.H, f.value) := f.value] == G';
    }
    UnionExtends(S.H, S.s, G, S.n);
    UnionExtends(S.H, S.s, G', S.n);
    forall k | k in S.s + G ensures k in S.s + G' && (S.s + G')[k] == (S.s + G)[k] {
      if k in G { assert k in G'; }
    }
  }

  lemma {:induction false} BinaryHash(S: Setting, layers: Layers, k: nat, item: IndexedNode, hashes: map<nat, int>, G: Preimages)
    requires ValidSetting(S) && Hashed(S, layers, k, hashes, G) && Denotes(S, layers, item.index, Layered(k, item.node))
    requires item.node.IsBinary()
    ensures Readable(item, hashes) && ValidFact(FactOf(item, hashes).value, S.n)
    ensures HashOf(S.H, item, hashes) == NewRoot(S, item.index)
    ensures forall G' :: Extends(S.s + G, S.s + G') && Holds(S.H, S.s + G', FactOf(item, hashes).value) ==> Complete(S, G', item.index)
  {
    var i, l, r := item.index, Child(item.index, false), Child(item.index, true);
    BinaryCode(S, layers, i, Layered(k, item.node));
    assert HashedNode(S, l, hashes, G) && HashedNode(S, r, hashes, G);
    ChildCodes(S, i);
    NewTells(S, l);
    NewTells(S, r);
    NodeCanonical(S.H, New(S, l), Height(S.top, l), S.n);
    NodeCanonical(S.H, New(S, r), Height(S.top, r), S.n);
    forall G' | Extends(S.s + G, S.s + G') && Holds(S.H, S.s + G', FactOf(item, hashes).value) ensures Complete(S, G', i) {
      CompleteMore(S, G, G', l);
      CompleteMore(S, G, G', r);
      BinaryComplete(S, G', i);
    }
  }

  lemma {:induction false} BinaryComplete(S: Setting, G: Preimages, i: nat)
    requires ValidSetting(S) && InTree(S.top, i) && Height(S.top, i) > 0 && NewCode(S, i).length == 0
    requires InTree(S.top, Child(i, false)) && NewCode(S, Child(i, false)) != EMPTY && Complete(S, G, Child(i, false))
    requires InTree(S.top, Child(i, true)) && NewCode(S, Child(i, true)) != EMPTY && Complete(S, G, Child(i, true))
    requires Holds(S.H, S.s + G, BinaryFact(NewRoot(S, Child(i, false)), NewRoot(S, Child(i, true))))
    ensures Complete(S, G, i)
  {
    ChildBlock(S.after, S.top, i, false);
    ChildBlock(S.after, S.top, i, true);
  }

  /** The bottom of a new node that is an edge. */
  lemma {:induction false} NewEdge(S: Setting, i: nat, e: Triplet)
    requires ValidSetting(S) && InTree(S.top, i) && e == NewCode(S, i) && e.length > 0
    ensures e.length <= Height(S.top, i) && e.path < Pow2(e.length) && ValidFact(EdgeFact(e.bottom, e.path, e.length), S.n)
    ensures InTree(S.top, Descend(i, e.length, e.path)) && Height(S.top, Descend(i, e.length, e.path)) == Height(S.top, i) - e.length
    ensures NewCode(S, Descend(i, e.length, e.path)) == Triplet(0, 0, e.bottom)
    ensures Sole(New(S, i), Height(S.top, i), e.length, e.path)
    ensures Descend(i, e.length, e.path) == Shl(i, e.length) + e.path
  {
    var h := Height(S.top, i);
    EncodeShape(S.H, New(S, i), h, S.n);
    EdgeSplits(S.H, New(S, i), h, S.n, e, e.length, 0, h - e.length, e.path, 0);
    DescendBlock(S.after, S.top, i, e.length, e.path);
    var b := Descend(i, e.length, e.path);
    assert New(S, b) == Bottom(New(S, i), h, e.length, e.path) && Height(S.top, b) == h - e.length;
    DescendIs(i, e.length, e.path);
  }

  lemma {:induction false} EdgeComplete(S: Setting, G: Preimages, i: nat, e: Triplet)
    requires ValidSetting(S) && InTree(S.top, i) && e == NewCode(S, i) && e.length > 0
    requires StoredBelow(S.H, S.s + G, New(S, i), Height(S.top, i)) && Holds(S.H, S.s + G, EdgeFact(e.bottom, e.path, e.length))
    ensures Complete(S, G, i)
  {}

  lemma {:induction false} BelowComplete(S: Setting, G: Preimages, i: nat, e: Triplet)
    requires ValidSetting(S) && InTree(S.top, i) && e == NewCode(S, i) && e.length > 0
    requires InTree(S.top, Descend(i, e.length, e.path)) && Complete(S, G, Descend(i, e.length, e.path))
    ensures StoredBelow(S.H, S.s + G, New(S, i), Height(S.top, i))
  {
    NewEdge(S, i, e);
    DescendBlock(S.after, S.top, i, e.length, e.path);
    SoleStored(S.H, S.s + G, New(S, i), Height(S.top, i), S.n, e.length, e.path);
  }

  lemma {:induction false} FactsComplete(S: Setting, G: Preimages, i: nat)
    requires ValidSetting(S) && InTree(S.top, i) && HasFacts(S, i) && WellKeyed(S.H, G, S.n)
    ensures StoredBelow(S.H, S.s + G, New(S, i), Height(S.top, i))
  {
    UnionExtends(S.H, S.s, G, S.n);
    StoredExtends(S.H, S.s, S.s + G, New(S, i), Height(S.top, i));
  }

  /** An edge whose bottom was put into an earlier layer. */
  lemma {:induction false} NewBottom(S: Setting, layers: Layers, k: nat, item: IndexedNode, e: Triplet, hashes: map<nat, int>, G: Preimages)
    requires ValidSetting(S) && Hashed(S, layers, k, hashes, G) && InTree(S.top, item.index) && e == NewCode(S, item.index) && e.length > 0
    requires item.node == Node(e.path, e.length, None) && Knows(layers, k, Descend(item.index, e.length, e.path))
    ensures Readable(item, hashes) && BottomHash(item, hashes) == e.bottom
    ensures StoredBelow(S.H, S.s + G, New(S, item.index), Height(S.top, item.index))
  {
    var b := Descend(item.index, e.length, e.path);
    NewEdge(S, item.index, e);
    assert HashedNode(S, b, hashes, G);
    BottomFrom(item, hashes, b);
    BelowComplete(S, G, item.index, e);
  }

  lemma {:induction false} BottomFrom(item: IndexedNode, hashes: map<nat, int>, b: nat)
    requires item.node.IsEdge() && item.node.value.None? && b == Shl(item.index, item.node.length) + item.node.path && b in hashes
    ensures Readable(item, hashes) && BottomHash(item, hashes) == hashes[b]
  {}

  lemma {:induction false} EdgeBottom(S: Setting, layers: Layers, k: nat, item: IndexedNode, hashes: map<nat, int>, G: Preimages)
    requires ValidSetting(S) && Hashed(S, layers, k, hashes, G) && Denotes(S, layers, item.index, Layered(k, item.node))
    requires item.node.IsEdge() && WellKeyed(S.H, G, S.n)
    ensures var e := NewCode(S, item.index);
      && item.node.length == e.length && item.node.path == e.path
      && Readable(item, hashes) && BottomHash(item, hashes) == e.bottom
    ensures StoredBelow(S.H, S.s + G, New(S, item.index), Height(S.top, item.index))
  {
    if item.node.value.Some? {
      FactsComplete(S, G, item.index);
    } else {
      NewBottom(S, layers, k, item, NewCode(S, item.index), hashes, G);
    }
  }

  lemma {:induction false} EdgeHash(S: Setting, layers: Layers, k: nat, item: IndexedNode, hashes: map<nat, int>, G: Preimages)
    requires ValidSetting(S) && Hashed(S, layers, k, hashes, G) && Denotes(S, layers, item.index, Layered(k, item.node))
    requires item.node.IsEdge() && WellKeyed(S.H, G, S.n)
    ensures Readable(item, hashes) && ValidFact(FactOf(item, hashes).value, S.n)
    ensures HashOf(S.H, item, hashes) == NewRoot(S, item.index)
    ensures forall G' :: Extends(S.s + G, S.s + G') && Holds(S.H, S.s + G', FactOf(item, hashes).value) ==> Complete(S, G', item.index)
  {
    var i, e := item.index, NewCode(S, item.index);
    EdgeBottom(S, layers, k, item, hashes, G);
    NewEdge(S, i, e);
    forall G' | Extends(S.s + G, S.s + G') && Holds(S.H, S.s + G', FactOf(item, hashes).value) ensures Complete(S, G', i) {
      StoredExtends(S.H, S.s + G, S.s + G', New(S, i), Height(S.top, i));
      EdgeComplete(S, G', i, e);
    }
  }

  lemma {:induction false} PlainHash(S: Setting, layers: Layers, k: nat, item: IndexedNode, G: Preimages)
    requires ValidSetting(S) && Denotes(S, layers, item.index, Layered(k, item.node)) && WellKeyed(S.H, G, S.n)
    requires !item.node.IsEdge() && !item.node.IsBinary()
    ensures item.node.value.value == NewRoot(S, item.index) && Complete(S, G, item.index)
  {
    var i := item.index;
    NewTells(S, i);
    if NewCode(S, i) == EMPTY {
      EmptyStored(S.H, S.s + G, New(S, i), Height(S.top, i), S.n);
    } else {
      FactsComplete(S, G, i);
    }
  }

  /** One call of calculate_fact. */
  lemma {:induction false} OneHash(S: Setting, layers: Layers, k: nat, item: IndexedNode, hashes: map<nat, int>, G: Preimages)
    requires ValidSetting(S) && Hashed(S, layers, k, hashes, G) && Denotes(S, layers, item.index, Layered(k, item.node))
    requires WellKeyed(S.H, G, S.n)
    ensures Readable(item, hashes) && HashOf(S.H, item, hashes) == NewRoot(S, item.index)
    ensures var G' := Record(S.H, G, FactOf(item, hashes));
      WellKeyed(S.H, G', S.n) && Extends(S.s + G, S.s + G') && Complete(S, G', item.index)
  {
    if item.node.IsBinary() {
      BinaryHash(S, layers, k, item, hashes, G);
    } else if item.node.IsEdge() {
      EdgeHash(S, layers, k, item, hashes, G);
    } else {
      PlainHash(S, layers, k, item, G);
    }
    RecordExtends(S, G, FactOf(item, hashes));
  }

  /** The fact of a node is one of the facts of its tree. */
  lemma {:induction false} OwnFact(S: Setting, layers: Layers, k: nat, item: IndexedNode, hashes: map<nat, int>, G: Preimages)
    requires ValidSetting(S) && Hashed(S, layers, k, hashes, G) && Denotes(S, layers, item.index, Layered(k, item.node))
    requires WellKeyed(S.H, G, S.n)
    ensures Readable(item, hashes)
    ensures FactOf(item, hashes).Some? ==>
      FactOf(item, hashes).value in TreeFacts(S.H, New(S, item.index), Height(S.top, item.index))
  {
    if item.node.IsBinary() {
      ChildHashes(S, layers, k, item, hashes, G);
      BinaryFactInTree(S, layers, k, item);
    } else if item.node.IsEdge() {
      EdgeBottom(S, layers, k, item, hashes, G);
      EdgeFactInTree(S, item.index, NewCode(S, item.index));
    }
  }

  lemma {:induction false} ChildHashes(S: Setting, layers: Layers, k: nat, item: IndexedNode, hashes: map<nat, int>, G: Preimages)
    requires ValidSetting(S) && Hashed(S, layers, k, hashes, G) && Denotes(S, layers, item.index, Layered(k, item.node))
    requires item.node.IsBinary()
    ensures var l, r := Child(item.index, false), Child(item.index, true);
      && InTree(S.top, l) && InTree(S.top, r) && Readable(item, hashes)
      && FactOf(item, hashes) == Some(BinaryFact(NewRoot(S, l), NewRoot(S, r)))
  {
    KidsHashed(S, layers, k, item.index, Layered(k, item.node), hashes, G);
    FactFrom(item, hashes, Child(item.index, false), Child(item.index, true));
  }

  lemma {:induction false} KidsHashed(S: Setting, layers: Layers, k: nat, i: nat, r: LayeredNode, hashes: map<nat, int>, G: Preimages)
    requires ValidSetting(S) && Hashed(S, layers, k, hashes, G) && Denotes(S, layers, i, r) && r.layer == k && r.node.IsBinary()
    ensures HashedNode(S, Child(i, false), hashes, G) && HashedNode(S, Child(i, true), hashes, G)
  {
    BinaryCode(S, layers, i, r);
    assert Knows(layers, k, Child(i, false)) && Knows(layers, k, Child(i, true));
  }

  lemma {:induction false} FactFrom(item: IndexedNode, hashes: map<nat, int>, l: nat, r: nat)
    requires item.node.IsBinary() && l == Child(item.index, false) && r == Child(item.index, true) && l in hashes && r in hashes
    ensures Readable(item, hashes) && FactOf(item, hashes) == Some(BinaryFact(hashes[l], hashes[r]))
  {}

  lemma {:induction false} EdgeFactInTree(S: Setting, i: nat, e: Triplet)
    requires ValidSetting(S) && InTree(S.top, i) && e == NewCode(S, i) && e.length > 0
    ensures EdgeFact(e.bottom, e.path, e.length) in TreeFacts(S.H, New(S, i), Height(S.top, i))
  {}

  lemma {:induction false} BinaryFactInTree(S: Setting, layers: Layers, k: nat, item: IndexedNode)
    requires ValidSetting(S) && Denotes(S, layers, item.index, Layered(k, item.node)) && item.node.IsBinary()
    ensures var i := item.index;
      && InTree(S.top, Child(i, false)) && InTree(S.top, Child(i, true))
      && BinaryFact(NewRoot(S, Child(i, false)), NewRoot(S, Child(i, true))) in TreeFacts(S.H, New(S, i), Height(S.top, i))
  {
    var i := item.index;
    BinaryCode(S, layers, i, Layered(k, item.node));
    ChildCodes(S, i);
    ChildBlock(S.after, S.top, i, false);
    ChildBlock(S.after, S.top, i, true);
    NewTells(S, Child(i, false));
    NewTells(S, Child(i, true));
  }

  lemma {:induction false} FactBelongs(S: Setting, layers: Layers, k: nat, b: nat, hashes: map<nat, int>, G: Preimages)
    requires ValidSetting(S) && LayersOk(S, layers) && k < |layers| && b < |layers[k]|
    requires Hashed(S, layers, k, hashes, G) && WellKeyed(S.H, G, S.n) && AllFrom(G, AllFacts(S))
    ensures Readable(layers[k][b], hashes)
    ensures AllFrom(Record(S.H, G, FactOf(layers[k][b], hashes)), AllFacts(S))
  {
    assert ItemOk(S, layers, k, b);
    OwnFact(S, layers, k, layers[k][b], hashes, G);
  }

  // ---------------------------------------------------------------------------
  // A layer
  // ---------------------------------------------------------------------------

  /** The layers before `k` are hashed, and of layer `k` all nodes but those at `todo`. */
  ghost predicate PartHashed(S: Setting, layers: Layers, k: nat, todo: set<nat>, hashes: map<nat, int>, G: Preimages)
    requires ValidSetting(S) && k < |layers|
  {
    && Hashed(S, layers, k, hashes, G) && WellKeyed(S.H, G, S.n)
    && (forall b: nat {:trigger b in todo} :: b < |layers[k]| && b !in todo ==> HashedNode(S, layers[k][b].index, hashes, G))
  }

  lemma {:induction false} HashedMore(S: Setting, j: nat, i: nat, hash: int, hashes: map<nat, int>, G: Preimages, G': Preimages)
    requires ValidSetting(S) && InTree(S.top, i) && hash == NewRoot(S, i) && Extends(S.s + G, S.s + G')
    requires HashedNode(S, j, hashes, G)
    ensures HashedNode(S, j, hashes[i := hash], G')
  {
    CompleteMore(S, G, G', j);
  }

  lemma {:induction false} HashStep(S: Setting, layers: Layers, k: nat, todo: set<nat>, hashes: map<nat, int>, G: Preimages, b: nat)
    requires ValidSetting(S) && LayersOk(S, layers) && k < |layers| && b < |layers[k]|
    requires PartHashed(S, layers, k, todo, hashes, G)
    ensures var item := layers[k][b];
      && Readable(item, hashes)
      && PartHashed(S, layers, k, todo - {b}, hashes[item.index := HashOf(S.H, item, hashes)], Record(S.H, G, FactOf(item, hashes)))
  {
    var item := layers[k][b];
    assert ItemOk(S, layers, k, b);
    OneHash(S, layers, k, item, hashes, G);
    var i, hash, G' := item.index, HashOf(S.H, item, hashes), Record(S.H, G, FactOf(item, hashes));
    var hashes' := hashes[i := hash];
    forall j: nat | Knows(layers, k, j) ensures HashedNode(S, j, hashes', G') { HashedMore(S, j, i, hash, hashes, G, G'); }
    forall c: nat | c < |layers[k]| && c !in todo - {b} ensures HashedNode(S, layers[k][c].index, hashes', G') {
      if c != b {
        assert c !in todo;
        HashedMore(S, layers[k][c].index, i, hash, hashes, G, G');
      }
    }
  }

  lemma {:induction false} LayerHashed(S: Setting, layers: Layers, k: nat, todo: set<nat>, hashes: map<nat, int>, G: Preimages)
    requires ValidSetting(S) && k < |layers| && todo == {} && PartHashed(S, layers, k, todo, hashes, G)
    ensures Hashed(S, layers, k + 1, hashes, G)
  {
    forall j: nat | Knows(layers, k + 1, j) ensures HashedNode(S, j, hashes, G) {
      if !Knows(layers, k, j) {
        var b := InLayer(layers, k, j);
        assert b !in todo;
      }
    }
  }

  lemma {:induction false} InLayer(layers: Layers, k: nat, j: nat) returns (b: nat)
    requires k < |layers| && Knows(layers, k + 1, j) && !Knows(layers, k, j)
    ensures b < |layers[k]| && layers[k][b].index == j
  {
    var a, c :| 0 <= a < k + 1 && a < |layers| && 0 <= c < |layers[a]| && layers[a][c].index == j;
    b := c;
  }

  /** The first `k` layers are hashed, and only facts of the new tree are recorded. */
  ghost predicate HashState(S: Setting, layers: Layers, k: nat, hashes: map<nat, int>, G: Preimages)
    requires ValidSetting(S)
  {
    Hashed(S, layers, k, hashes, G) && WellKeyed(S.H, G, S.n) && AllFrom(G, AllFacts(S))
  }

  lemma {:induction false} NothingHashed(S: Setting, layers: Layers)
    requires ValidSetting(S)
    ensures HashState(S, layers, 0, map[], map[])
  {}

  lemma {:induction false} RootHashed(S: Setting, layers: Layers, hashes: map<nat, int>, G: Preimages)
    requires ValidSetting(S) && HashState(S, layers, |layers|, hashes, G) && Knows(layers, |layers|, 1)
    ensures 1 in hashes && hashes[1] == Root(S.H, S.after, S.top) && Stored(S.H, S.s + G, S.after, S.top)
    ensures WellKeyed(S.H, G, S.n) && AllFrom(G, AllFacts(S))
  {
    assert HashedNode(S, 1, hashes, G);
    assert New(S, 1) == S.after && Height(S.top, 1) == S.top;
  }
}
