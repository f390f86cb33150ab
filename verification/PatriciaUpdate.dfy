/**
 A whole update of a Patricia tree, from the root hash and the list of modifications to the new
 root hash and the new storage (PatriciaTree.update over update_tree, with the Patricia node
 and calculation classes).
 */
module PatriciaUpdate {
  import opened Common
  import opened PatriciaEncoding
  import opened UpdateTree
  import opened UpdateProtocol
  import opened Calculation
  import opened PatriciaTree

  function PatriciaAlgebra(s: Preimages): Algebra<VirtualNode, LeafFact, CalcNode> {
    Algebra((v: VirtualNode) => v.height, v => NodeChildren(s, v), v => CreateFromNode(v), f => CreateFromFact(f), (l, r) => Combine(s, l, r))
  }

  /** The nodes of a Patricia tree have children one height below, so the results on leaves and
      siblings of a traversal are about Patricia trees. */
  lemma PatriciaHeights(s: Preimages)
    ensures ProperHeights(PatriciaAlgebra(s))
  {}

  /** The leaves after the updates of `u`. */
  function Overwrite(leaves: seq<int>, u: UpdateTree<LeafFact>, h: nat): (r: seq<int>)
    requires |leaves| == Pow2(h)
    ensures |r| == |leaves|
    decreases h
  {
    match u
    case NoUpdate => leaves
    case LeafUpdate(f) => if h == 0 then [f.hash] else leaves
    case Fork(l, r) =>
      if h == 0 then leaves
      else Overwrite(LeftHalf(leaves, h), l, h - 1) + Overwrite(RightHalf(leaves, h), r, h - 1)
  }

  lemma {:induction false} OverwriteAt(leaves: seq<int>, u: UpdateTree<LeafFact>, h: nat, i: nat)
    requires |leaves| == Pow2(h) && i < Pow2(h) && WellFormed(u, h)
    ensures Overwrite(leaves, u, h)[i] == match Lookup(u, h, i) case Some(f) => f.hash case None => leaves[i]
    decreases h
  {
    if u.Fork? {
      var m := Pow2(h - 1);
      if i < m {
        OverwriteAt(LeftHalf(leaves, h), u.left, h - 1, i);
      } else {
        OverwriteAt(RightHalf(leaves, h), u.right, h - 1, i - m);
      }
    }
  }

  /** The leaves with the dictionary of modifications applied. */
  function Modified(leaves: seq<int>, m: map<int, LeafFact>): seq<int> {
    seq(|leaves|, i requires 0 <= i < |leaves| => if i in m then m[i].hash else leaves[i])
  }

  lemma OverwriteIsModified(leaves: seq<int>, m: map<int, LeafFact>, h: nat)
    requires |leaves| == Pow2(h)
    ensures WellFormed(Split(m, h, 0), h) && Overwrite(leaves, Split(m, h, 0), h) == Modified(leaves, m)
  {
    SplitWellFormed(m, h, 0);
    forall i | 0 <= i < |leaves| ensures Overwrite(leaves, Split(m, h, 0), h)[i] == Modified(leaves, m)[i] {
      SplitLookup(m, h, 0, i);
      OverwriteAt(leaves, Split(m, h, 0), h, i);
    }
  }

  ghost function FactsOf(u: UpdateTree<LeafFact>): set<LeafFact> {
    match u
    case NoUpdate => {}
    case LeafUpdate(f) => {f}
    case Fork(l, r) => FactsOf(l) + FactsOf(r)
  }

  /** The recursive calculation of an update succeeds, and stands for the updated leaves. */
  lemma {:induction false} ResultDenotes(w: World, v: VirtualNode, u: UpdateTree<LeafFact>, leaves: seq<int>, h: nat)
    returns (value: int, facts: Facts)
    requires ValidWorld(w) && h <= w.maxLength && |leaves| == Pow2(h)
    requires Shows(w.hash, w.inner, v, leaves, h) && KnownLeaves(leaves, w.known)
    requires WellFormed(u, h) && FactsOf(u) <= w.written
    ensures var r := Result(PatriciaAlgebra(w.inner), v, u);
      r.Some? && Denotes(w, r.value, Overwrite(leaves, u, h), h, value, facts)
    decreases h, 2
  {
    match u
    case NoUpdate =>
      CreateFromNodeDenotes(w, v, leaves, h);
      value, facts := v.bottom, NO_FACTS;
    case LeafUpdate(f) =>
      CreateFromFactDenotes(w, f);
      value, facts := f.hash, Facts(map[], map[f.hash := f]);
    case Fork(ul, ur) =>
      value, facts := ForkDenotes(w, v, ul, ur, leaves, h);
  }

  lemma {:induction false} ForkDenotes(w: World, v: VirtualNode, ul: UpdateTree<LeafFact>, ur: UpdateTree<LeafFact>, leaves: seq<int>, h: nat)
    returns (value: int, facts: Facts)
    requires ValidWorld(w) && 0 < h <= w.maxLength && |leaves| == Pow2(h)
    requires Shows(w.hash, w.inner, v, leaves, h) && KnownLeaves(leaves, w.known)
    requires WellFormed(ul, h - 1) && WellFormed(ur, h - 1) && FactsOf(ul) + FactsOf(ur) <= w.written
    ensures var r := Result(PatriciaAlgebra(w.inner), v, Fork(ul, ur));
      r.Some? && Denotes(w, r.value, Overwrite(leaves, Fork(ul, ur), h), h, value, facts)
    decreases h, 1
  {
    var a, b := Overwrite(LeftHalf(leaves, h), ul, h - 1), Overwrite(RightHalf(leaves, h), ur, h - 1);
    var kids, lv, lf, rv, rf := SidesDenote(w, v, ul, ur, leaves, h);
    value, facts := JoinResults(w, v, ul, ur, kids, a, b, Overwrite(leaves, Fork(ul, ur), h), h, lv, lf, rv, rf);
  }

  lemma {:induction false} SidesDenote(w: World, v: VirtualNode, ul: UpdateTree<LeafFact>, ur: UpdateTree<LeafFact>, leaves: seq<int>, h: nat)
    returns (kids: (VirtualNode, VirtualNode), lv: int, lf: Facts, rv: int, rf: Facts)
    requires ValidWorld(w) && 0 < h <= w.maxLength && |leaves| == Pow2(h)
    requires Shows(w.hash, w.inner, v, leaves, h) && KnownLeaves(leaves, w.known)
    requires WellFormed(ul, h - 1) && WellFormed(ur, h - 1) && FactsOf(ul) + FactsOf(ur) <= w.written
    ensures v.height > 0 && NodeChildren(w.inner, v) == Some(kids)
    ensures var x := Result(PatriciaAlgebra(w.inner), kids.0, ul);
      x.Some? && Denotes(w, x.value, Overwrite(LeftHalf(leaves, h), ul, h - 1), h - 1, lv, lf)
    ensures var y := Result(PatriciaAlgebra(w.inner), kids.1, ur);
      y.Some? && Denotes(w, y.value, Overwrite(RightHalf(leaves, h), ur, h - 1), h - 1, rv, rf)
    decreases h, 0
  {
    kids := ForkKids(w, v, leaves, h);
    lv, lf := ResultDenotes(w, kids.0, ul, LeftHalf(leaves, h), h - 1);
    rv, rf := ResultDenotes(w, kids.1, ur, RightHalf(leaves, h), h - 1);
  }

  lemma ForkKids(w: World, v: VirtualNode, leaves: seq<int>, h: nat) returns (kids: (VirtualNode, VirtualNode))
    requires ValidWorld(w) && 0 < h <= w.maxLength && |leaves| == Pow2(h)
    requires Shows(w.hash, w.inner, v, leaves, h) && KnownLeaves(leaves, w.known)
    ensures v.height == h && NodeChildren(w.inner, v) == Some(kids)
    ensures Shows(w.hash, w.inner, kids.0, LeftHalf(leaves, h), h - 1) && KnownLeaves(LeftHalf(leaves, h), w.known)
    ensures Shows(w.hash, w.inner, kids.1, RightHalf(leaves, h), h - 1) && KnownLeaves(RightHalf(leaves, h), w.known)
  {
    NodeChildrenShow(w.hash, w.maxLength, w.inner, v, leaves, h);
    kids := NodeChildren(w.inner, v).value;
    KnownHalves(leaves, w.known, h);
  }

  lemma JoinResults(w: World, v: VirtualNode, ul: UpdateTree<LeafFact>, ur: UpdateTree<LeafFact>, kids: (VirtualNode, VirtualNode),
                    a: seq<int>, b: seq<int>, whole: seq<int>, h: nat, lv: int, lf: Facts, rv: int, rf: Facts)
    returns (value: int, facts: Facts)
    requires ValidWorld(w) && 0 < h <= w.maxLength && |a| == |b| == Pow2(h - 1) && whole == a + b
    requires v.height > 0 && NodeChildren(w.inner, v) == Some(kids)
    requires var x := Result(PatriciaAlgebra(w.inner), kids.0, ul); x.Some? && Denotes(w, x.value, a, h - 1, lv, lf)
    requires var y := Result(PatriciaAlgebra(w.inner), kids.1, ur); y.Some? && Denotes(w, y.value, b, h - 1, rv, rf)
    ensures |whole| == Pow2(h)
    ensures var r := Result(PatriciaAlgebra(w.inner), v, Fork(ul, ur));
      r.Some? && Denotes(w, r.value, whole, h, value, facts)
  {
    var lc := Result(PatriciaAlgebra(w.inner), kids.0, ul).value;
    var rc := Result(PatriciaAlgebra(w.inner), kids.1, ur).value;
    ForkResult(w.inner, v, ul, ur, kids, lc, rc);
    value, facts := CombineDenotes(w, lc, rc, a, b, h - 1, lv, lf, rv, rf);
  }

  lemma ForkResult(s: Preimages, v: VirtualNode, ul: UpdateTree<LeafFact>, ur: UpdateTree<LeafFact>, kids: (VirtualNode, VirtualNode), lc: CalcNode, rc: CalcNode)
    requires v.height > 0 && NodeChildren(s, v) == Some(kids)
    requires Result(PatriciaAlgebra(s), kids.0, ul) == Some(lc) && Result(PatriciaAlgebra(s), kids.1, ur) == Some(rc)
    ensures Result(PatriciaAlgebra(s), v, Fork(ul, ur)) == Combine(s, lc, rc)
  {}

  lemma KnownHalves(leaves: seq<int>, known: set<int>, h: nat)
    requires 0 < h && |leaves| == Pow2(h) && KnownLeaves(leaves, known)
    ensures KnownLeaves(LeftHalf(leaves, h), known) && KnownLeaves(RightHalf(leaves, h), known)
  {
    forall i | 0 <= i < Pow2(h - 1) ensures RightHalf(leaves, h)[i] == leaves[Pow2(h - 1) + i] {}
  }

  // ---------------------------------------------------------------------------
  // The storage, and a whole update on it
  // ---------------------------------------------------------------------------

  /** The storage holds the tree of the given root, leaves and height, and every fact under its
      own hash. */
  ghost predicate Represents(H: Hash, n: nat, stored: Facts, root: int, leaves: seq<int>, h: nat)
    requires |leaves| == Pow2(h)
  {
    && WellKeyed(H, stored.inner, n)
    && (forall k :: k in stored.leaves ==> stored.leaves[k].hash == k)
    && root == Root(H, leaves, h)
    && Stored(H, stored.inner, leaves, h)
    && KnownLeaves(leaves, stored.leaves.Keys)
  }

  /** The modified facts: `is_empty` means hash 0, and different facts have different hashes. */
  ghost predicate ProperFacts(mods: seq<(int, LeafFact)>) {
    && (forall i :: 0 <= i < |mods| ==> (mods[i].1.isEmpty <==> mods[i].1.hash == 0))
    && DistinctHashes(set i | 0 <= i < |mods| :: mods[i].1)
  }

  lemma {:induction false} ToDictValues(mods: seq<(int, LeafFact)>, k: int)
    requires k in ToDict(mods)
    ensures ToDict(mods)[k] in (set i | 0 <= i < |mods| :: mods[i].1)
  {
    var n := |mods| - 1;
    if mods[n].0 != k {
      ToDictValues(mods[..n], k);
      assert forall i :: 0 <= i < n ==> mods[..n][i] == mods[i];
    }
  }

  lemma {:induction false} SplitFacts(m: map<int, LeafFact>, h: nat, i: int, f: LeafFact)
    requires f in FactsOf(Split(m, h, i))
    ensures exists k :: k in m && m[k] == f
    decreases h
  {
    if h == 0 {
      assert i in m;
    } else if f in FactsOf(Split(m, h - 1, 2 * i)) {
      SplitFacts(m, h - 1, 2 * i, f);
    } else {
      SplitFacts(m, h - 1, 2 * i + 1, f);
    }
  }

  lemma UpdateFacts(mods: seq<(int, LeafFact)>, h: nat)
    ensures FactsOf(Split(ToDict(mods), h, 0)) <= (set i | 0 <= i < |mods| :: mods[i].1)
  {
    forall f | f in FactsOf(Split(ToDict(mods), h, 0)) ensures f in (set i | 0 <= i < |mods| :: mods[i].1) {
      SplitFacts(ToDict(mods), h, 0, f);
      var k :| k in ToDict(mods) && ToDict(mods)[k] == f;
      ToDictValues(mods, k);
    }
  }

  /** The storage after the new facts and, for a root that is an edge, its fact are written. */
  function Written(H: Hash, s: Preimages, facts: Preimages, v: VirtualNode): Preimages {
    if v.length == 0 then s + facts
    else (s + facts)[HashFact(H, EdgeFact(v.bottom, v.path, v.length)) := EdgeFact(v.bottom, v.path, v.length)]
  }

  /** `commit` of the root node. */
  function CommitRoot(H: Hash, v: VirtualNode): int {
    if v.length == 0 then v.bottom else HashFact(H, EdgeFact(v.bottom, v.path, v.length))
  }

  lemma FinalStorage(w: World, c: CalcNode, leaves: seq<int>, h: nat, value: int, facts: Facts)
    requires ValidWorld(w) && h <= w.maxLength && |leaves| == Pow2(h) && Denotes(w, c, leaves, h, value, facts)
    ensures var s := Written(w.hash, w.inner, facts.inner, ToVirtual(c, value));
      && WellKeyed(w.hash, s, w.maxLength) && AddsOnly(w.inner, s, TreeFacts(w.hash, leaves, h))
      && Stored(w.hash, s, leaves, h) && CommitRoot(w.hash, ToVirtual(c, value)) == Root(w.hash, leaves, h)
  {
    var H := w.hash;
    var s := Written(H, w.inner, facts.inner, ToVirtual(c, value));
    UnionExtends(H, w.inner, facts.inner, w.maxLength);
    assert w.inner + map[] == w.inner;
    if c.length > 0 {
      EncodeShape(H, leaves, h, w.maxLength);
      var f := EdgeFact(value, c.path, c.length);
      OneFact(w, f);
      UnionExtends(H, w.inner + facts.inner, map[HashFact(H, f) := f], w.maxLength);
      assert s == w.inner + facts.inner + map[HashFact(H, f) := f];
      StoredExtends(H, w.inner + facts.inner, s, leaves, h);
      assert Holds(H, s, f);
    }
  }

  lemma UpdateDenotes(w: World, root: int, height: nat, mods: seq<(int, LeafFact)>, leaves: seq<int>)
    returns (value: int, facts: Facts)
    requires ValidWorld(w) && height <= w.maxLength && |leaves| == Pow2(height)
    requires w.written == set i | 0 <= i < |mods| :: mods[i].1
    requires root == Root(w.hash, leaves, height) && Stored(w.hash, w.inner, leaves, height) && KnownLeaves(leaves, w.known)
    ensures var r := Result(PatriciaAlgebra(w.inner), FromHash(root, height), Split(ToDict(mods), height, 0));
      r.Some? && Denotes(w, r.value, Modified(leaves, ToDict(mods)), height, value, facts)
  {
    OverwriteIsModified(leaves, ToDict(mods), height);
    UpdateFacts(mods, height);
    value, facts := ResultDenotes(w, FromHash(root, height), Split(ToDict(mods), height, 0), leaves, height);
  }

  /** In every state that a schedule of the update of a Patricia tree reaches, each leaf has one owner,
      and two finished siblings stand side by side only while one worker combines them. */
  lemma UpdateCoversOnce(w: World, root: int, height: nat, mods: seq<(int, LeafFact)>, leaves: seq<int>,
                         schedule: seq<Task<VirtualNode, LeafFact, CalcNode>>, x: nat, j: nat)
    returns (o: Owner<VirtualNode, LeafFact, CalcNode>)
    requires ValidWorld(w) && height <= w.maxLength && |leaves| == Pow2(height)
    requires w.written == set i | 0 <= i < |mods| :: mods[i].1
    requires root == Root(w.hash, leaves, height) && Stored(w.hash, w.inner, leaves, height) && KnownLeaves(leaves, w.known)
    requires Legal(PatriciaAlgebra(w.inner), Init(FromHash(root, height), Split(ToDict(mods), height, 0)), schedule)
    requires Pow2(height) <= x < Pow2(height + 1) && j > 0
    ensures var s := Exec(PatriciaAlgebra(w.inner), Init(FromHash(root, height), Split(ToDict(mods), height, 0)), schedule);
      OnlyOwner(s.pool, s.updated, o, x) && PairIsCombined(s.pool, s.updated, j)
  {
    var alg, tree, u := PatriciaAlgebra(w.inner), FromHash(root, height), Split(ToDict(mods), height, 0);
    var value, facts := UpdateDenotes(w, root, height, mods, leaves);
    PatriciaHeights(w.inner);
    o := LeavesCoveredOnce(alg, tree, u, schedule, x);
    SiblingsCombinedOnce(alg, tree, u, schedule, j);
  }

  /** The fact storage behind a fact fetching context. */
  class FactStorage {
    var inner: map<int, NodeFact>
    var leaves: map<int, LeafFact>

    ghost function Contents(): Facts
      reads this
    {
      Facts(inner, leaves)
    }

    constructor ()
      ensures Contents() == NO_FACTS
    {
      inner, leaves := map[], map[];
    }
  }

  const EXECUTOR_DEPTH := 5

  /** `PatriciaTree.update`, under every scheduling of the workers and every completion order of
      the executor. It fails exactly when an index is out of range, leaving the storage alone;
      otherwise the new root is that of the modified leaves, the storage holds the whole new
      tree, and no stored fact is lost. `leaves` is the array that the old root stands for. */
  method Update(H: Hash, ghost n: nat, storage: FactStorage, root: int, height: nat, mods: seq<(int, LeafFact)>, ghost leaves: seq<int>)
    returns (r: Option<int>)
    requires CollisionFree(H, n) && height <= n && |leaves| == Pow2(height) && ProperFacts(mods)
    requires Represents(H, n, storage.Contents(), root, leaves, height)
    modifies storage
    ensures r.Some? <==> InRange(mods, height)
    ensures r.Some? ==> Represents(H, n, storage.Contents(), r.value, Modified(leaves, ToDict(mods)), height)
    ensures r.Some? ==> AddsOnly(old(storage.inner), storage.inner, TreeFacts(H, Modified(leaves, ToDict(mods)), height))
    ensures old(storage.leaves).Keys <= storage.leaves.Keys
    ensures r.None? ==> storage.Contents() == old(storage.Contents())
  {
    var built := BuildUpdateTree(height, mods);
    if built.None? { return None; }
    var u := built.value;
    ghost var written := set i | 0 <= i < |mods| :: mods[i].1;
    ghost var w := World(H, n, storage.inner, storage.leaves.Keys, written);
    ghost var leaves' := Modified(leaves, ToDict(mods));
    ghost var value, facts := UpdateDenotes(w, root, height, mods, leaves);
    var state := Traverse(PatriciaAlgebra(storage.inner), FromHash(root, height), u);
    var c := state.updated[1];
    var newFacts := new NodeFactDict();
    var bottom := FullCalculateWithExecutor(H, n, c.bottom, EXECUTOR_DEPTH, newFacts);
    assert bottom == Some(value) && newFacts.Contents() == facts;
    FinalStorage(w, c, leaves', height, value, facts);
    FullCalculateKeyed(H, n, written, c.bottom, NO_FACTS);
    storage.inner := Written(H, storage.inner, newFacts.innerNodes, ToVirtual(c, bottom.value));
    storage.leaves := storage.leaves + newFacts.leaves;
    r := Some(CommitRoot(H, ToVirtual(c, bottom.value)));
    assert storage.leaves.Keys == w.known + facts.leaves.Keys;
  }

  /** `PatriciaTree.empty_tree` represents the all-zero array. */
  lemma EmptyTreeRepresents(H: Hash, n: nat, h: nat, stored: Facts)
    requires CollisionFree(H, n) && h <= n && WellKeyed(H, stored.inner, n)
    requires forall k :: k in stored.leaves ==> stored.leaves[k].hash == k
    ensures Represents(H, n, stored, 0, seq(Pow2(h), _ => 0), h)
  {
    var zeros: seq<int> := seq(Pow2(h), _ => 0);
    EncodeShape(H, zeros, h, n);
    EmptyStored(H, stored.inner, zeros, h, n);
  }

  /** The leaves after a sequence of batches. */
  function ModifiedAll(leaves: seq<int>, batches: seq<seq<(int, LeafFact)>>): (r: seq<int>)
    ensures |r| == |leaves|
  {
    if batches == [] then leaves
    else Modified(ModifiedAll(leaves, batches[..|batches| - 1]), ToDict(batches[|batches| - 1]))
  }

  /** A whole run of updates from an empty tree: whatever the schedules, the root of every
      intermediate tree is that of the accumulated leaves, and its facts are all stored. */
  method UpdateAll(H: Hash, ghost n: nat, storage: FactStorage, height: nat, batches: seq<seq<(int, LeafFact)>>) returns (root: int)
    requires CollisionFree(H, n) && height <= n && storage.Contents() == NO_FACTS
    requires forall b :: b in batches ==> ProperFacts(b) && InRange(b, height)
    modifies storage
    ensures root == Root(H, ModifiedAll(seq(Pow2(height), _ => 0), batches), height)
    ensures Represents(H, n, storage.Contents(), root, ModifiedAll(seq(Pow2(height), _ => 0), batches), height)
  {
    root := 0;
    EmptyTreeRepresents(H, n, height, NO_FACTS);
    ghost var zeros: seq<int> := seq(Pow2(height), _ => 0);
    for i := 0 to |batches|
      invariant Represents(H, n, storage.Contents(), root, ModifiedAll(zeros, batches[..i]), height)
    {
      assert batches[i] in batches;
      assert batches[..i + 1][..i] == batches[..i];
      var r := Update(H, n, storage, root, height, batches[i], ModifiedAll(zeros, batches[..i]));
      root := r.value;
    }
    assert batches[..|batches|] == batches;
  }
}
