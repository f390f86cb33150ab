/**
 Patricia tree nodes read from the fact storage, and the calculation nodes that `update_tree`
 builds over them (src/starkware/starkware_utils/commitment_tree/patricia_tree/).

 A node of height `h` stands for an array of 2^h leaf hashes. Both kinds of node may hold it in
 canonical form (the triplet of the encoding) or in committed form (its hash alone).
 */
module PatriciaTree {
  import opened Common
  import opened PatriciaEncoding
  import opened Calculation

  // ---------------------------------------------------------------------------
  // virtual_patricia_node.py
  // ---------------------------------------------------------------------------

  datatype VirtualNode = VirtualNode(bottom: int, path: nat, length: nat, height: nat)

  function EmptyNode(h: nat): VirtualNode { VirtualNode(0, 0, 0, h) }

  function FromHash(x: int, h: nat): VirtualNode { VirtualNode(x, 0, 0, h) }

  function EdgeNodeChildren(v: VirtualNode): (VirtualNode, VirtualNode)
    requires v.length > 0 && v.height > 0
  {
    var child := VirtualNode(v.bottom, v.path % Pow2(v.length - 1), v.length - 1, v.height - 1);
    if v.path / Pow2(v.length - 1) == 0 then (child, EmptyNode(v.height - 1)) else (EmptyNode(v.height - 1), child)
  }

  /** `get_children`; None on a leaf or where a fact is missing. */
  function NodeChildren(s: Preimages, v: VirtualNode): Option<(VirtualNode, VirtualNode)> {
    if v.height == 0 then None
    else if v.bottom == 0 then Some((EmptyNode(v.height - 1), EmptyNode(v.height - 1)))
    else if v.length > 0 then Some(EdgeNodeChildren(v))
    else if v.bottom !in s then None
    else
      match s[v.bottom]
      case EdgeFact(b, p, len) => if len == 0 then None else Some(EdgeNodeChildren(VirtualNode(b, p, len, v.height)))
      case BinaryFact(l, r) => Some((FromHash(l, v.height - 1), FromHash(r, v.height - 1)))
  }

  ghost predicate InCanonicForm(H: Hash, s: Preimages, v: VirtualNode, leaves: seq<int>, h: nat)
    requires |leaves| == Pow2(h)
  {
    Triplet(v.length, v.path, v.bottom) == Encode(H, leaves, h) && StoredBelow(H, s, leaves, h)
  }

  ghost predicate InCommittedForm(H: Hash, s: Preimages, v: VirtualNode, leaves: seq<int>, h: nat)
    requires |leaves| == Pow2(h)
  {
    v.length == 0 && v.path == 0 && v.bottom == Root(H, leaves, h) && Stored(H, s, leaves, h)
  }

  /** The node stands for `leaves`, and all facts below it are stored. */
  ghost predicate Shows(H: Hash, s: Preimages, v: VirtualNode, leaves: seq<int>, h: nat)
    requires |leaves| == Pow2(h)
  {
    v.height == h && (InCanonicForm(H, s, v, leaves, h) || InCommittedForm(H, s, v, leaves, h))
  }

  lemma EdgeChildrenSplit(H: Hash, l: Triplet, r: Triplet, h: nat)
    requires h > 0 && Canonical(H, l) && Canonical(H, r) && (l == EMPTY) != (r == EMPTY)
    ensures var e := Join(H, l, r);
      EdgeNodeChildren(VirtualNode(e.bottom, e.path, e.length, h))
        == (VirtualNode(l.bottom, l.path, l.length, h - 1), VirtualNode(r.bottom, r.path, r.length, h - 1))
  {
    var e := Join(H, l, r);
    var p := Pow2(e.length - 1);
    if l == EMPTY { DivUnique(e.path, p, 1, r.path); } else { DivUnique(e.path, p, 0, l.path); }
  }

  function AsNode(e: Triplet, h: nat): VirtualNode { VirtualNode(e.bottom, e.path, e.length, h) }

  /** The children of a node, from the encodings of its halves. */
  lemma JoinedChildren(H: Hash, s: Preimages, v: VirtualNode, l: Triplet, r: Triplet)
    requires v.height > 0 && Canonical(H, l) && Canonical(H, r) && Canonical(H, Join(H, l, r))
    requires l != EMPTY && r != EMPTY ==>
      Join(H, l, r).bottom != 0 && Holds(H, s, BinaryFact(HashNode(H, l), HashNode(H, r)))
    requires var e := Join(H, l, r);
      || v == AsNode(e, v.height)
      || (v == FromHash(HashNode(H, e), v.height) && (e.length > 0 ==> Holds(H, s, EdgeFact(e.bottom, e.path, e.length))))
    ensures NodeChildren(s, v) == Some(
      if l != EMPTY && r != EMPTY then (FromHash(HashNode(H, l), v.height - 1), FromHash(HashNode(H, r), v.height - 1))
      else (AsNode(l, v.height - 1), AsNode(r, v.height - 1)))
  {
    var e := Join(H, l, r);
    if (l == EMPTY) != (r == EMPTY) {
      EdgeChildrenSplit(H, l, r, v.height);
      assert HashFact(H, EdgeFact(e.bottom, e.path, e.length)) == HashNode(H, e);
    } else if l != EMPTY {
      assert HashFact(H, BinaryFact(HashNode(H, l), HashNode(H, r))) == e.bottom;
    }
  }

  /** The children of a node that shows an array show its two halves. */
  lemma NodeChildrenShow(H: Hash, n: nat, s: Preimages, v: VirtualNode, leaves: seq<int>, h: nat)
    requires CollisionFree(H, n) && 0 < h <= n && |leaves| == Pow2(h) && Shows(H, s, v, leaves, h)
    ensures NodeChildren(s, v).Some?
    ensures Shows(H, s, NodeChildren(s, v).value.0, LeftHalf(leaves, h), h - 1)
    ensures Shows(H, s, NodeChildren(s, v).value.1, RightHalf(leaves, h), h - 1)
  {
    var l, r := LeftHalf(leaves, h), RightHalf(leaves, h);
    NodeCanonical(H, l, h - 1, n);
    NodeCanonical(H, r, h - 1, n);
    NodeCanonical(H, leaves, h, n);
    assert StoredBelow(H, s, leaves, h);
    StoredHalves(H, s, leaves, h, n);
    var el, er := Encode(H, l, h - 1), Encode(H, r, h - 1);
    if el != EMPTY && er != EMPTY { BinaryBottom(H, el, er, n); }
    JoinedChildren(H, s, v, el, er);
  }

  // ---------------------------------------------------------------------------
  // virtual_calculation_node.py
  // ---------------------------------------------------------------------------

  datatype CalcNode = CalcNode(bottom: HashCalc, path: nat, length: nat, height: nat)

  function IsEmpty(c: CalcNode): bool {
    match c.bottom
    case Constant(v) => v == 0
    case LeafCalc(f) => f.isEmpty
    case _ => false
  }

  function EmptyCalc(h: nat): CalcNode { CalcNode(Constant(0), 0, 0, h) }

  function CreateFromNode(v: VirtualNode): CalcNode {
    if v.bottom == 0 then EmptyCalc(v.height) else CalcNode(Constant(v.bottom), v.path, v.length, v.height)
  }

  function CreateFromFact(f: LeafFact): CalcNode { CalcNode(LeafCalc(f), 0, 0, 0) }

  /** `_commit`: enters the virtual edge into the calculation. */
  function Commit(c: CalcNode): HashCalc {
    if c.length == 0 then c.bottom else EdgeCalc(c.bottom, c.path, c.length)
  }

  /** `_decommit`: moves an edge of the bottom into the virtual edge. */
  function Decommit(s: Preimages, c: CalcNode): Option<CalcNode> {
    if c.height == 0 || IsEmpty(c) || c.length != 0 then Some(c)
    else
      match c.bottom
      case EdgeCalc(b, path, length) => Some(CalcNode(b, path, length, c.height))
      case Constant(v) =>
        if v !in s then None
        else (match s[v]
              case EdgeFact(b, path, length) => Some(CalcNode(Constant(b), path, length, c.height))
              case BinaryFact(_, _) => Some(c))
      case _ => Some(c)
  }

  /** `combine`; None where an assertion or a read of the storage fails. */
  function Combine(s: Preimages, l: CalcNode, r: CalcNode): Option<CalcNode> {
    if r.height != l.height then None
    else if IsEmpty(l) && IsEmpty(r) then Some(EmptyCalc(r.height + 1))
    else if !IsEmpty(l) && !IsEmpty(r) then Some(CalcNode(BinaryCalc(Commit(l), Commit(r)), 0, 0, r.height + 1))
    else
      var d := Decommit(s, if IsEmpty(l) then r else l);
      if d.None? then None
      else
        var path := if IsEmpty(l) then d.value.path + Pow2(d.value.length) else d.value.path;
        if path >= Pow2(d.value.length + 1) then None
        else Some(CalcNode(d.value.bottom, path, d.value.length + 1, d.value.height + 1))
  }

  /** `calculate` of the node, given the result of its bottom calculation. */
  function ToVirtual(c: CalcNode, bottomHash: int): VirtualNode {
    VirtualNode(bottomHash, c.path, c.length, c.height)
  }

  /** What the update starts from: the hash, a bound on edges, the stored facts, the stored
      leaf hashes and the leaf facts being written. */
  datatype World = World(hash: Hash, maxLength: nat, inner: Preimages, known: set<int>, written: set<LeafFact>)

  ghost predicate KnownLeaves(leaves: seq<int>, known: set<int>) {
    forall i :: 0 <= i < |leaves| ==> leaves[i] == 0 || leaves[i] in known
  }

  ghost predicate ValidWorld(w: World) {
    && CollisionFree(w.hash, w.maxLength)
    && WellKeyed(w.hash, w.inner, w.maxLength)
    && (forall f :: f in w.written ==> (f.isEmpty <==> f.hash == 0))
  }

  /** The calculation `c` evaluates to `value` and `facts`. */
  ghost predicate Evaluates(w: World, c: HashCalc, value: int, facts: Facts) {
    && FullCalculate(w.hash, c, NO_FACTS) == Some((value, facts))
    && ShortEdges(c, w.maxLength) && LeafFacts(c) <= w.written
    && WellKeyed(w.hash, facts.inner, w.maxLength)
  }

  /** The calculation node stands for `leaves`: its value is their encoding (or, for a node
      that is already committed, their hash), and the storage together with the facts that it
      generates holds everything below. */
  ghost predicate Denotes(w: World, c: CalcNode, leaves: seq<int>, h: nat, value: int, facts: Facts)
    requires |leaves| == Pow2(h)
  {
    && c.height == h
    && (IsEmpty(c) <==> Encode(w.hash, leaves, h) == EMPTY)
    && Evaluates(w, c.bottom, value, facts)
    && KnownLeaves(leaves, w.known + facts.leaves.Keys)
    && AllFrom(facts.inner, FactsBelow(w.hash, leaves, h))
    && ((Triplet(c.length, c.path, value) == Encode(w.hash, leaves, h) && StoredBelow(w.hash, w.inner + facts.inner, leaves, h))
        || (c.length == 0 && c.path == 0 && c.bottom.Constant? && facts == NO_FACTS
            && value == Root(w.hash, leaves, h) && Stored(w.hash, w.inner, leaves, h)))
  }

  lemma EvaluateConstant(w: World, v: int)
    ensures Evaluates(w, Constant(v), v, NO_FACTS)
  {}

  lemma EvaluateLeaf(w: World, f: LeafFact)
    requires f in w.written
    ensures Evaluates(w, LeafCalc(f), f.hash, Facts(map[], map[f.hash := f]))
  {
    assert Merge(NO_FACTS, Facts(map[], map[f.hash := f])) == Facts(map[], map[f.hash := f]);
  }

  lemma CreateFromNodeDenotes(w: World, v: VirtualNode, leaves: seq<int>, h: nat)
    requires ValidWorld(w) && h <= w.maxLength && |leaves| == Pow2(h)
    requires Shows(w.hash, w.inner, v, leaves, h) && KnownLeaves(leaves, w.known)
    ensures Denotes(w, CreateFromNode(v), leaves, h, v.bottom, NO_FACTS)
  {
    NodeCanonical(w.hash, leaves, h, w.maxLength);
    EvaluateConstant(w, v.bottom);
    assert w.inner + map[] == w.inner;
  }

  lemma CreateFromFactDenotes(w: World, f: LeafFact)
    requires ValidWorld(w) && f in w.written
    ensures Denotes(w, CreateFromFact(f), [f.hash], 0, f.hash, Facts(map[], map[f.hash := f]))
  {
    EvaluateLeaf(w, f);
  }

  lemma EmptyDenotes(w: World, leaves: seq<int>, h: nat)
    requires ValidWorld(w) && h <= w.maxLength && |leaves| == Pow2(h) && Encode(w.hash, leaves, h) == EMPTY
    ensures Denotes(w, EmptyCalc(h), leaves, h, 0, NO_FACTS)
  {
    EncodeShape(w.hash, leaves, h, w.maxLength);
    EvaluateConstant(w, 0);
    EmptyStored(w.hash, w.inner, leaves, h, w.maxLength);
    assert w.inner + map[] == w.inner;
  }

  lemma UnfoldEdge(H: Hash, b: HashCalc, path: nat, length: nat, value: int, facts: Facts)
    requires FullCalculate(H, b, NO_FACTS) == Some((value, facts)) && length > 0 && path < Pow2(length)
    ensures FullCalculate(H, EdgeCalc(b, path, length), NO_FACTS)
      == Some((HashFact(H, EdgeFact(value, path, length)),
               Merge(facts, Facts(map[HashFact(H, EdgeFact(value, path, length)) := EdgeFact(value, path, length)], map[]))))
  {
    OneDependency(H, EdgeCalc(b, path, length), b, NO_FACTS);
  }

  lemma UnfoldBinary(H: Hash, l: HashCalc, r: HashCalc, lv: int, lf: Facts, rv: int, rf: Facts)
    requires FullCalculate(H, l, NO_FACTS) == Some((lv, lf)) && FullCalculate(H, r, NO_FACTS) == Some((rv, rf))
    requires lv != 0 && rv != 0
    ensures FullCalculate(H, BinaryCalc(l, r), NO_FACTS)
      == Some((HashFact(H, BinaryFact(lv, rv)),
               Merge(Merge(lf, rf), Facts(map[HashFact(H, BinaryFact(lv, rv)) := BinaryFact(lv, rv)], map[]))))
  {
    FullCalculateAdds(H, r, lf);
    TwoDependencies(H, BinaryCalc(l, r), l, r, NO_FACTS);
  }

  /** Storage grown by the facts `a` is part of the storage grown by `a` and more. */
  lemma GrownExtends(w: World, a: Preimages, b: Preimages)
    requires ValidWorld(w) && WellKeyed(w.hash, a, w.maxLength) && WellKeyed(w.hash, b, w.maxLength)
    ensures WellKeyed(w.hash, a + b, w.maxLength)
    ensures Extends(w.inner + a, w.inner + (a + b)) && Extends(w.inner + b, w.inner + (a + b))
  {
    UnionExtends(w.hash, a, b, w.maxLength);
    UnionExtends(w.hash, w.inner, a, w.maxLength);
    UnionExtends(w.hash, w.inner, b, w.maxLength);
    UnionExtends(w.hash, w.inner, a + b, w.maxLength);
  }

  lemma OneFact(w: World, f: NodeFact)
    requires ValidFact(f, w.maxLength)
    ensures WellKeyed(w.hash, map[HashFact(w.hash, f) := f], w.maxLength)
  {}

  /** Committing a non-empty node evaluates to the hash of its leaves, and generates the facts
      that the storage lacks. */
  lemma CommitEvaluates(w: World, c: CalcNode, leaves: seq<int>, h: nat, value: int, facts: Facts)
    returns (facts': Facts)
    requires ValidWorld(w) && h <= w.maxLength && |leaves| == Pow2(h) && Denotes(w, c, leaves, h, value, facts)
    ensures Evaluates(w, Commit(c), Root(w.hash, leaves, h), facts')
    ensures Stored(w.hash, w.inner + facts'.inner, leaves, h)
    ensures facts'.leaves == facts.leaves && AllFrom(facts'.inner, TreeFacts(w.hash, leaves, h))
  {
    NodeCanonical(w.hash, leaves, h, w.maxLength);
    if c.length == 0 {
      facts' := facts;
      assert w.inner + map[] == w.inner;
    } else {
      facts' := CommitEdge(w, c, leaves, h, value, facts);
    }
  }

  lemma CommitEdge(w: World, c: CalcNode, leaves: seq<int>, h: nat, value: int, facts: Facts)
    returns (facts': Facts)
    requires ValidWorld(w) && h <= w.maxLength && |leaves| == Pow2(h) && c.length > 0
    requires Evaluates(w, c.bottom, value, facts) && Triplet(c.length, c.path, value) == Encode(w.hash, leaves, h)
    requires StoredBelow(w.hash, w.inner + facts.inner, leaves, h) && AllFrom(facts.inner, FactsBelow(w.hash, leaves, h))
    ensures Evaluates(w, EdgeCalc(c.bottom, c.path, c.length), Root(w.hash, leaves, h), facts')
    ensures Stored(w.hash, w.inner + facts'.inner, leaves, h)
    ensures facts'.leaves == facts.leaves && AllFrom(facts'.inner, TreeFacts(w.hash, leaves, h))
  {
    var H := w.hash;
    EncodeShape(H, leaves, h, w.maxLength);
    var f := EdgeFact(value, c.path, c.length);
    var m := map[HashFact(H, f) := f];
    facts' := Merge(facts, Facts(m, map[]));
    UnfoldEdge(H, c.bottom, c.path, c.length, value, facts);
    OneFact(w, f);
    GrownExtends(w, facts.inner, m);
    StoredExtends(H, w.inner + facts.inner, w.inner + facts'.inner, leaves, h);
    assert Holds(H, w.inner + facts'.inner, f);
    EdgeFrom(H, leaves, h, facts.inner, f);
    assert facts.leaves + map[] == facts.leaves;
  }

  lemma EdgeFrom(H: Hash, leaves: seq<int>, h: nat, s: Preimages, f: NodeFact)
    requires |leaves| == Pow2(h) && AllFrom(s, FactsBelow(H, leaves, h))
    requires var e := Encode(H, leaves, h); e.length > 0 && f == EdgeFact(e.bottom, e.path, e.length)
    ensures AllFrom(s + map[HashFact(H, f) := f], TreeFacts(H, leaves, h))
  {}

  lemma KnownConcat(a: seq<int>, b: seq<int>, known: set<int>)
    requires KnownLeaves(a, known) && KnownLeaves(b, known)
    ensures KnownLeaves(a + b, known)
  {}

  /** The facts of two subtrees and the fact of their parent store the joined array. */
  lemma BinaryStored(w: World, a: seq<int>, b: seq<int>, h: nat, s: Preimages, t: Preimages)
    requires ValidWorld(w) && h < w.maxLength && |a| == |b| == Pow2(h)
    requires WellKeyed(w.hash, s, w.maxLength) && WellKeyed(w.hash, t, w.maxLength)
    requires Stored(w.hash, w.inner + s, a, h) && Stored(w.hash, w.inner + t, b, h)
    requires Encode(w.hash, a, h) != EMPTY && Encode(w.hash, b, h) != EMPTY
    requires AllFrom(s, TreeFacts(w.hash, a, h)) && AllFrom(t, TreeFacts(w.hash, b, h))
    ensures var f := BinaryFact(Root(w.hash, a, h), Root(w.hash, b, h));
      var all := s + t + map[HashFact(w.hash, f) := f];
      && |a + b| == Pow2(h + 1) && WellKeyed(w.hash, all, w.maxLength)
      && StoredBelow(w.hash, w.inner + all, a + b, h + 1)
      && AllFrom(all, FactsBelow(w.hash, a + b, h + 1))
  {
    var H := w.hash;
    HalvesOfSum(a, b, h + 1);
    NodeCanonical(H, a, h, w.maxLength);
    NodeCanonical(H, b, h, w.maxLength);
    var f := BinaryFact(Root(H, a, h), Root(H, b, h));
    var m := map[HashFact(H, f) := f];
    OneFact(w, f);
    GrownExtends(w, s, t);
    GrownExtends(w, s + t, m);
    StoredExtends(H, w.inner + s, w.inner + (s + t), a, h);
    StoredExtends(H, w.inner + (s + t), w.inner + (s + t + m), a, h);
    StoredExtends(H, w.inner + t, w.inner + (s + t), b, h);
    StoredExtends(H, w.inner + (s + t), w.inner + (s + t + m), b, h);
    assert Holds(H, w.inner + (s + t + m), f);
    BinaryFrom(H, a, b, h, s, t);
  }

  lemma BinaryFrom(H: Hash, a: seq<int>, b: seq<int>, h: nat, s: Preimages, t: Preimages)
    requires |a| == |b| == Pow2(h) && Encode(H, a, h) != EMPTY && Encode(H, b, h) != EMPTY
    requires AllFrom(s, TreeFacts(H, a, h)) && AllFrom(t, TreeFacts(H, b, h))
    ensures var f := BinaryFact(Root(H, a, h), Root(H, b, h));
      |a + b| == Pow2(h + 1) && AllFrom(s + t + map[HashFact(H, f) := f], FactsBelow(H, a + b, h + 1))
  {
    HalvesOfSum(a, b, h + 1);
  }

  lemma CombineBinary(w: World, l: CalcNode, r: CalcNode, a: seq<int>, b: seq<int>, h: nat, lv: int, lf: Facts, rv: int, rf: Facts)
    returns (value: int, facts: Facts)
    requires ValidWorld(w) && h < w.maxLength && |a| == |b| == Pow2(h)
    requires Denotes(w, l, a, h, lv, lf) && Denotes(w, r, b, h, rv, rf) && !IsEmpty(l) && !IsEmpty(r)
    ensures |a + b| == Pow2(h + 1) && Denotes(w, Combine(w.inner, l, r).value, a + b, h + 1, value, facts)
  {
    var H := w.hash;
    HalvesOfSum(a, b, h + 1);
    NodeCanonical(H, a, h, w.maxLength);
    NodeCanonical(H, b, h, w.maxLength);
    var lf' := CommitEvaluates(w, l, a, h, lv, lf);
    var rf' := CommitEvaluates(w, r, b, h, rv, rf);
    var f := BinaryFact(Root(H, a, h), Root(H, b, h));
    UnfoldBinary(H, Commit(l), Commit(r), Root(H, a, h), lf', Root(H, b, h), rf');
    BinaryStored(w, a, b, h, lf'.inner, rf'.inner);
    value := HashFact(H, f);
    facts := Merge(Merge(lf', rf'), Facts(map[value := f], map[]));
    BinaryBottom(H, Encode(H, a, h), Encode(H, b, h), w.maxLength);
    KnownConcat(a, b, w.known + facts.leaves.Keys);
  }

  /** Decommitting gives the canonical form. The branch for an EdgeCalc bottom is never needed. */
  lemma DecommitDenotes(w: World, c: CalcNode, leaves: seq<int>, h: nat, value: int, facts: Facts)
    returns (value': int)
    requires ValidWorld(w) && h <= w.maxLength && |leaves| == Pow2(h) && Denotes(w, c, leaves, h, value, facts) && !IsEmpty(c)
    ensures Decommit(w.inner, c).Some?
    ensures var d := Decommit(w.inner, c).value;
      DenotesCanonic(w, d, leaves, h, value', facts)
    ensures h > 0 && c.length == 0 ==> !c.bottom.EdgeCalc?
  {
    var H := w.hash;
    EncodeShape(H, leaves, h, w.maxLength);
    var e := Encode(H, leaves, h);
    assert w.inner + map[] == w.inner;
    if h == 0 || c.length != 0 {
      value' := value;
    } else {
      match c.bottom
      case Constant(v) =>
        EvaluateConstant(w, v);
        if e.length > 0 {
          assert HashFact(H, EdgeFact(e.bottom, e.path, e.length)) == Root(H, leaves, h);
          value' := e.bottom;
          EvaluateConstant(w, e.bottom);
        } else {
          BinaryOnTop(H, w.inner, leaves, h, w.maxLength);
          value' := value;
        }
      case EdgeCalc(b, p, len) =>
        NoEdgeBottom(w, b, p, len, leaves, h, value, facts);
        value' := value;
      case _ => value' := value;
    }
  }

  /** A non-empty node without an edge, above the leaves, is stored as a binary node. */
  lemma BinaryOnTop(H: Hash, s: Preimages, leaves: seq<int>, h: nat, n: nat)
    requires CollisionFree(H, n) && 0 < h <= n && |leaves| == Pow2(h) && StoredBelow(H, s, leaves, h)
    requires Encode(H, leaves, h) != EMPTY && Encode(H, leaves, h).length == 0
    ensures Root(H, leaves, h) in s && s[Root(H, leaves, h)].BinaryFact?
  {
    StoredHalves(H, s, leaves, h, n);
    var el, er := Encode(H, LeftHalf(leaves, h), h - 1), Encode(H, RightHalf(leaves, h), h - 1);
    assert HashFact(H, BinaryFact(HashNode(H, el), HashNode(H, er))) == Root(H, leaves, h);
  }

  lemma NoEdgeBottom(w: World, b: HashCalc, p: nat, len: nat, leaves: seq<int>, h: nat, value: int, facts: Facts)
    requires ValidWorld(w) && 0 < h <= w.maxLength && |leaves| == Pow2(h)
    requires Evaluates(w, EdgeCalc(b, p, len), value, facts)
    requires Encode(w.hash, leaves, h).length == 0
    ensures Encode(w.hash, leaves, h).bottom != value
  {
    var H := w.hash;
    OneDependency(H, EdgeCalc(b, p, len), b, NO_FACTS);
    var bottom := FullCalculate(H, b, NO_FACTS);
    assert bottom.Some? && len > 0 && p < Pow2(len);
    UnfoldEdge(H, b, p, len, bottom.value.0, bottom.value.1);
    EdgeIsNotBottom(H, Triplet(len, p, bottom.value.0), leaves, h, w.maxLength);
  }

  /** `d` is the canonical form of a node for `leaves`. */
  ghost predicate DenotesCanonic(w: World, d: CalcNode, leaves: seq<int>, h: nat, value: int, facts: Facts)
    requires |leaves| == Pow2(h)
  {
    && d.height == h && !IsEmpty(d) && Evaluates(w, d.bottom, value, facts)
    && Triplet(d.length, d.path, value) == Encode(w.hash, leaves, h)
    && StoredBelow(w.hash, w.inner + facts.inner, leaves, h)
    && AllFrom(facts.inner, FactsBelow(w.hash, leaves, h))
  }

  /** Extending a canonical node by one step, with an empty sibling, gives the canonical node of
      the joined array. */
  lemma ExtendEdge(w: World, d: CalcNode, a: seq<int>, b: seq<int>, h: nat, right: bool, value: int, facts: Facts)
    requires ValidWorld(w) && h < w.maxLength && |a| == |b| == Pow2(h)
    requires DenotesCanonic(w, d, if right then b else a, h, value, facts)
    requires Encode(w.hash, if right then a else b, h) == EMPTY && Encode(w.hash, if right then b else a, h) != EMPTY
    ensures |a + b| == Pow2(h + 1)
    ensures var path := if right then d.path + Pow2(d.length) else d.path;
      path < Pow2(d.length + 1) && DenotesCanonic(w, CalcNode(d.bottom, path, d.length + 1, h + 1), a + b, h + 1, value, facts)
    ensures Encode(w.hash, a + b, h + 1) != EMPTY
  {
    HalvesOfSum(a, b, h + 1);
    NodeCanonical(w.hash, a, h, w.maxLength);
    NodeCanonical(w.hash, b, h, w.maxLength);
  }

  lemma CombineEdge(w: World, l: CalcNode, r: CalcNode, a: seq<int>, b: seq<int>, h: nat, lv: int, lf: Facts, rv: int, rf: Facts)
    returns (value: int, facts: Facts)
    requires ValidWorld(w) && h < w.maxLength && |a| == |b| == Pow2(h)
    requires Denotes(w, l, a, h, lv, lf) && Denotes(w, r, b, h, rv, rf) && IsEmpty(l) != IsEmpty(r)
    ensures |a + b| == Pow2(h + 1) && Combine(w.inner, l, r).Some?
    ensures Denotes(w, Combine(w.inner, l, r).value, a + b, h + 1, value, facts)
  {
    if IsEmpty(l) {
      value := DecommitDenotes(w, r, b, h, rv, rf);
      facts := rf;
      ExtendEdge(w, Decommit(w.inner, r).value, a, b, h, true, value, facts);
      EmptyKnown(w, a, h, facts);
    } else {
      value := DecommitDenotes(w, l, a, h, lv, lf);
      facts := lf;
      ExtendEdge(w, Decommit(w.inner, l).value, a, b, h, false, value, facts);
      EmptyKnown(w, b, h, facts);
    }
    KnownConcat(a, b, w.known + facts.leaves.Keys);
  }

  lemma EmptyKnown(w: World, leaves: seq<int>, h: nat, facts: Facts)
    requires ValidWorld(w) && h <= w.maxLength && |leaves| == Pow2(h) && Encode(w.hash, leaves, h) == EMPTY
    ensures KnownLeaves(leaves, w.known + facts.leaves.Keys)
  {
    EncodeShape(w.hash, leaves, h, w.maxLength);
  }

  /** `combine` of nodes for two arrays never fails and is a node for the joined array. */
  lemma CombineDenotes(w: World, l: CalcNode, r: CalcNode, a: seq<int>, b: seq<int>, h: nat, lv: int, lf: Facts, rv: int, rf: Facts)
    returns (value: int, facts: Facts)
    requires ValidWorld(w) && h < w.maxLength && |a| == |b| == Pow2(h)
    requires Denotes(w, l, a, h, lv, lf) && Denotes(w, r, b, h, rv, rf)
    ensures |a + b| == Pow2(h + 1) && Combine(w.inner, l, r).Some?
    ensures Denotes(w, Combine(w.inner, l, r).value, a + b, h + 1, value, facts)
  {
    if IsEmpty(l) && IsEmpty(r) {
      HalvesOfSum(a, b, h + 1);
      EmptyDenotes(w, a + b, h + 1);
      value, facts := 0, NO_FACTS;
    } else if !IsEmpty(l) && !IsEmpty(r) {
      value, facts := CombineBinary(w, l, r, a, b, h, lv, lf, rv, rf);
    } else {
      value, facts := CombineEdge(w, l, r, a, b, h, lv, lf, rv, rf);
    }
  }
}
