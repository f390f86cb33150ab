/**
 Leaves and differences of Patricia trees
 (src/starkware/starkware_utils/commitment_tree/patricia_tree/virtual_patricia_node.py).
 */
module PatriciaRead {
  import opened Common
  import opened PatriciaEncoding
  import opened PatriciaTree
  import opened EdgePaths
  import Calculation
  import PairingHash
  import PatriciaUpdate
  import B = BinaryFactTree

  // ---------------------------------------------------------------------------
  // As a binary fact tree
  // ---------------------------------------------------------------------------

  /** get_children, and the leaf hash, over a storage. */
  function PatriciaView(s: Preimages): B.View<VirtualNode, int> {
    B.View(v => if NodeChildren(s, v).Some? then NodeChildren(s, v).value else (v, v), (v: VirtualNode) => v.bottom)
  }

  lemma LeafShown(H: Hash, s: Preimages, v: VirtualNode, leaves: seq<int>)
    requires |leaves| == 1 && Shows(H, s, v, leaves, 0)
    ensures v == FromHash(leaves[0], 0)
  {}

  lemma KidsShown(H: Hash, n: nat, s: Preimages, v: VirtualNode, leaves: seq<int>, h: nat)
    returns (l: VirtualNode, r: VirtualNode, a: seq<int>, b: seq<int>)
    requires CollisionFree(H, n) && 0 < h <= n && |leaves| == Pow2(h) && Shows(H, s, v, leaves, h)
    ensures PatriciaView(s).kids(v) == (l, r) && NodeChildren(s, v) == Some((l, r))
    ensures a == LeftHalf(leaves, h) && b == RightHalf(leaves, h) && leaves == a + b
    ensures Shows(H, s, l, a, h - 1) && Shows(H, s, r, b, h - 1)
  {
    NodeChildrenShow(H, n, s, v, leaves, h);
    l, r := NodeChildren(s, v).value.0, NodeChildren(s, v).value.1;
    a, b := LeftHalf(leaves, h), RightHalf(leaves, h);
  }

  lemma ContentsJoin(w: B.View<VirtualNode, int>, v: VirtualNode, h: nat, l: VirtualNode, r: VirtualNode, a: seq<int>, b: seq<int>)
    requires h > 0 && w.kids(v) == (l, r) && B.Contents(w, l, h - 1) == a && B.Contents(w, r, h - 1) == b
    ensures B.Contents(w, v, h) == a + b
  {}

  /** A node that shows an array has it as its contents. */
  lemma {:induction false} ContentsShown(H: Hash, n: nat, s: Preimages, v: VirtualNode, leaves: seq<int>, h: nat)
    requires CollisionFree(H, n) && h <= n && |leaves| == Pow2(h) && Shows(H, s, v, leaves, h)
    ensures B.Contents(PatriciaView(s), v, h) == leaves
    decreases h
  {
    if h == 0 {
      LeafShown(H, s, v, leaves);
    } else {
      var l, r, a, b := KidsShown(H, n, s, v, leaves, h);
      ContentsShown(H, n, s, l, a, h - 1);
      ContentsShown(H, n, s, r, b, h - 1);
      ContentsJoin(PatriciaView(s), v, h, l, r, a, b);
    }
  }

  /** The leaf nodes below are bare leaf hashes. */
  ghost predicate BareLeaves(w: B.View<VirtualNode, int>, v: VirtualNode, h: nat)
    decreases h
  {
    if h == 0 then v == FromHash(w.leaf(v), 0)
    else BareLeaves(w, w.kids(v).0, h - 1) && BareLeaves(w, w.kids(v).1, h - 1)
  }

  lemma {:induction false} BareLeavesShown(H: Hash, n: nat, s: Preimages, v: VirtualNode, leaves: seq<int>, h: nat)
    requires CollisionFree(H, n) && h <= n && |leaves| == Pow2(h) && Shows(H, s, v, leaves, h)
    ensures BareLeaves(PatriciaView(s), v, h)
    decreases h
  {
    if h == 0 {
      LeafShown(H, s, v, leaves);
    } else {
      var l, r, a, b := KidsShown(H, n, s, v, leaves, h);
      BareLeavesShown(H, n, s, l, a, h - 1);
      BareLeavesShown(H, n, s, r, b, h - 1);
    }
  }

  /** Equal leaves are equal nodes, although equal inner nodes may be held in two forms. */
  lemma {:induction false} BareLeavesTell(w: B.View<VirtualNode, int>, v: VirtualNode, u: VirtualNode, h: nat)
    requires BareLeaves(w, v, h) && BareLeaves(w, u, h)
    ensures B.LeavesTell(w, v, u, h)
    decreases h
  {
    if h > 0 {
      BareLeavesTell(w, w.kids(v).0, w.kids(u).0, h - 1);
      BareLeavesTell(w, w.kids(v).1, w.kids(u).1, h - 1);
    }
  }

  /** get_diff_between_trees on two Patricia roots lists exactly the leaves that differ. */
  method PatriciaDiff(ghost H: Hash, ghost n: nat, s: Preimages, a: VirtualNode, ghost la: seq<int>, b: VirtualNode, ghost lb: seq<int>, h: nat)
    returns (r: seq<(nat, int, int)>)
    requires CollisionFree(H, n) && 0 < h <= n && |la| == |lb| == Pow2(h) && Shows(H, s, a, la, h) && Shows(H, s, b, lb, h)
    ensures multiset(r) == multiset(B.Changed(0, la, lb))
  {
    BareLeavesShown(H, n, s, a, la, h);
    BareLeavesShown(H, n, s, b, lb, h);
    BareLeavesTell(PatriciaView(s), a, b, h);
    ContentsShown(H, n, s, a, la, h);
    ContentsShown(H, n, s, b, lb, h);
    var d := B.GetDiffBetweenTrees(PatriciaView(s), a, h, b, h);
    return d.value;
  }

  // ---------------------------------------------------------------------------
  // _get_leaves of the Patricia nodes
  // ---------------------------------------------------------------------------

  /** get_empty_leaves */
  function EmptyLeaves(indices: seq<int>): map<int, int> {
    map i | i in indices :: 0
  }

  /** The indices below the bottom node of an edge, counted from its first leaf. */
  function InsideBlock(indices: seq<int>, width: nat, path: nat): seq<int> {
    if indices == [] then []
    else (if indices[0] / Pow2(width) == path then [indices[0] - path * Pow2(width)] else [])
         + InsideBlock(indices[1..], width, path)
  }

  function OutsideBlock(indices: seq<int>, width: nat, path: nat): seq<int> {
    if indices == [] then []
    else (if indices[0] / Pow2(width) != path then [indices[0]] else []) + OutsideBlock(indices[1..], width, path)
  }

  /** _get_leaves; None is a failed assertion or a missing fact. */
  function ReadLeaves(s: Preimages, v: VirtualNode, indices: seq<int>): Option<map<int, int>>
    decreases v.height
  {
    if indices == [] then Some(map[])
    else if v.bottom == 0 then Some(EmptyLeaves(indices))
    else if v.height == 0 then
      if forall i :: i in indices ==> i == 0 then Some(map[0 := v.bottom]) else None
    else if v.length > v.height then None
    else if v.length > 0 then
      var width := v.height - v.length;
      var below := ReadLeaves(s, FromHash(v.bottom, width), InsideBlock(indices, width, v.path));
      if below.None? then None
      else Some(B.UnifyBinaryLeaves(v.path * Pow2(width), EmptyLeaves(OutsideBlock(indices, width, v.path)), below.value))
    else
      var kids := NodeChildren(s, v);
      if kids.None? || kids.value.0.height >= v.height || kids.value.1.height >= v.height then None
      else
        var mid := Pow2(v.height - 1);
        var left := ReadLeaves(s, kids.value.0, B.LeftIndices(indices, mid));
        var right := ReadLeaves(s, kids.value.1, B.RightIndices(indices, mid));
        if left.None? || right.None? then None else Some(B.UnifyBinaryLeaves(mid, left.value, right.value))
  }

  ghost function AtOrEmpty(leaves: seq<int>, indices: seq<int>): map<int, int> {
    map i | i in indices :: if 0 <= i < |leaves| then leaves[i] else 0
  }

  ghost predicate AllInside(indices: seq<int>, size: nat) {
    forall i :: i in indices ==> 0 <= i < size
  }

  ghost predicate SomeNegative(indices: seq<int>) {
    exists i :: i in indices && i < 0
  }

  ghost predicate SomeBeyond(indices: seq<int>, size: nat) {
    exists i :: i in indices && i >= size
  }

  ghost predicate ZeroPart(leaves: seq<int>, start: int, end: int) {
    forall i :: 0 <= i < |leaves| && start <= i < end ==> leaves[i] == 0
  }

  /** The trees that refuse a negative index: the first leaf is set, and no part from 2^k to 2^(k + 2)
      is empty. */
  ghost predicate GuardsLow(leaves: seq<int>, h: nat)
    requires |leaves| == Pow2(h)
  {
    leaves[0] != 0 && forall k: nat :: k + 2 <= h ==> !ZeroPart(leaves, Pow2(k), Pow2(k + 2))
  }

  /** The trees that refuse an index beyond the last: the same, counted from the last leaf. */
  ghost predicate GuardsHigh(leaves: seq<int>, h: nat)
    requires |leaves| == Pow2(h)
  {
    leaves[|leaves| - 1] != 0 &&
    forall k: nat :: k + 2 <= h ==> !ZeroPart(leaves, |leaves| - Pow2(k + 2), |leaves| - Pow2(k))
  }

  ghost predicate TreeRefuses(leaves: seq<int>, h: nat, indices: seq<int>)
    requires |leaves| == Pow2(h)
  {
    || (SomeNegative(indices) && GuardsLow(leaves, h))
    || (SomeBeyond(indices, |leaves|) && GuardsHigh(leaves, h))
  }

  /** A node held as an edge answers every index. */
  ghost predicate Refuses(v: VirtualNode, leaves: seq<int>, indices: seq<int>)
    requires |leaves| == Pow2(v.height)
  {
    v.length == 0 && TreeRefuses(leaves, v.height, indices)
  }

  /** The call fails or not as told; an answer has the leaf of each index, or the empty leaf out of range. */
  ghost predicate ReadsAs(r: Option<map<int, int>>, leaves: seq<int>, indices: seq<int>, refused: bool) {
    && (r.None? <==> refused)
    && (r.Some? ==> r.value == AtOrEmpty(leaves, indices))
  }

  // The indices of the two halves.

  lemma HalvesOutside(indices: seq<int>, mid: nat)
    ensures var li, ri := B.LeftIndices(indices, mid), B.RightIndices(indices, mid);
      && (SomeNegative(li) <==> SomeNegative(indices)) && !SomeBeyond(li, mid)
      && !SomeNegative(ri) && (SomeBeyond(ri, mid) <==> SomeBeyond(indices, 2 * mid))
  {
    var li, ri := B.LeftIndices(indices, mid), B.RightIndices(indices, mid);
    forall i ensures i in li <==> i in indices && i < mid { B.InLeft(indices, mid, i); }
    forall i ensures i in ri <==> i + mid in indices && i >= 0 { B.InRight(indices, mid, i + mid); }
    if SomeBeyond(indices, 2 * mid) {
      var i :| i in indices && i >= 2 * mid;
      assert i - mid in ri;
    }
  }

  lemma UnifyHalvesAt(a: seq<int>, b: seq<int>, indices: seq<int>, li: seq<int>, ri: seq<int>, i: int)
    requires i in li <==> i in indices && i < |a|
    requires i - |a| in ri <==> i in indices && i >= |a|
    ensures var u := B.UnifyBinaryLeaves(|a|, AtOrEmpty(a, li), AtOrEmpty(b, ri));
      var goal := AtOrEmpty(a + b, indices);
      (i in u <==> i in goal) && (i in u ==> u[i] == goal[i])
  {
    B.InShift(AtOrEmpty(b, ri).Keys, |a|, i);
  }

  lemma UnifyHalves(a: seq<int>, b: seq<int>, indices: seq<int>, mid: nat)
    requires |a| == mid
    ensures B.UnifyBinaryLeaves(mid, AtOrEmpty(a, B.LeftIndices(indices, mid)), AtOrEmpty(b, B.RightIndices(indices, mid)))
         == AtOrEmpty(a + b, indices)
  {
    var li, ri := B.LeftIndices(indices, mid), B.RightIndices(indices, mid);
    var u := B.UnifyBinaryLeaves(mid, AtOrEmpty(a, li), AtOrEmpty(b, ri));
    var goal := AtOrEmpty(a + b, indices);
    forall i ensures (i in u <==> i in goal) && (i in u ==> u[i] == goal[i]) {
      B.InLeft(indices, mid, i);
      B.InRight(indices, mid, i);
      UnifyHalvesAt(a, b, indices, li, ri, i);
    }
    assert u == goal;
  }

  // The indices inside and outside the block of an edge.

  lemma BlockIndex(i: int, size: nat, path: nat)
    requires size > 0
    ensures i / size == path <==> 0 <= i - path * size < size
  {
    if 0 <= i - path * size < size { DivUnique(i, size, path, i - path * size); }
  }

  lemma {:induction false} InInside(indices: seq<int>, width: nat, path: nat, i: int)
    ensures i - path * Pow2(width) in InsideBlock(indices, width, path) <==> i in indices && i / Pow2(width) == path
  {
    if indices != [] { InInside(indices[1..], width, path, i); }
  }

  lemma {:induction false} InOutside(indices: seq<int>, width: nat, path: nat, i: int)
    ensures i in OutsideBlock(indices, width, path) <==> i in indices && i / Pow2(width) != path
  {
    if indices != [] { InOutside(indices[1..], width, path, i); }
  }

  lemma InsideIsInside(indices: seq<int>, width: nat, path: nat)
    ensures AllInside(InsideBlock(indices, width, path), Pow2(width))
  {
    var start := path * Pow2(width);
    forall i | i in InsideBlock(indices, width, path) ensures 0 <= i < Pow2(width) {
      InInside(indices, width, path, i + start);
      BlockIndex(i + start, Pow2(width), path);
    }
  }

  /** `sub` is the part of `leaves` from `start` on, and all else is 0. */
  ghost predicate IsBlock(leaves: seq<int>, start: int, sub: seq<int>) {
    && 0 <= start && start + |sub| <= |leaves|
    && forall i :: 0 <= i < |leaves| ==> leaves[i] == if start <= i < start + |sub| then sub[i - start] else 0
  }

  lemma UnifyBlockAt(leaves: seq<int>, sub: seq<int>, indices: seq<int>, ins: seq<int>, outs: seq<int>, start: int, i: int)
    requires IsBlock(leaves, start, sub)
    requires i - start in ins <==> i in indices && 0 <= i - start < |sub|
    requires i in outs <==> i in indices && !(0 <= i - start < |sub|)
    ensures var u := B.UnifyBinaryLeaves(start, EmptyLeaves(outs), AtOrEmpty(sub, ins));
      var goal := AtOrEmpty(leaves, indices);
      (i in u <==> i in goal) && (i in u ==> u[i] == goal[i])
  {
    B.InShift(AtOrEmpty(sub, ins).Keys, start, i);
  }

  lemma InBlock(indices: seq<int>, width: nat, path: nat, start: int, i: int)
    requires start == path * Pow2(width)
    ensures i - start in InsideBlock(indices, width, path) <==> i in indices && 0 <= i - start < Pow2(width)
    ensures i in OutsideBlock(indices, width, path) <==> i in indices && !(0 <= i - start < Pow2(width))
  {
    InInside(indices, width, path, i);
    InOutside(indices, width, path, i);
    BlockIndex(i, Pow2(width), path);
  }

  lemma {:induction false} UnifyBlock(leaves: seq<int>, sub: seq<int>, indices: seq<int>, width: nat, path: nat, start: int)
    requires |sub| == Pow2(width) && start == path * Pow2(width) && IsBlock(leaves, start, sub)
    ensures B.UnifyBinaryLeaves(start, EmptyLeaves(OutsideBlock(indices, width, path)), AtOrEmpty(sub, InsideBlock(indices, width, path)))
         == AtOrEmpty(leaves, indices)
  {
    var ins, outs := InsideBlock(indices, width, path), OutsideBlock(indices, width, path);
    var u := B.UnifyBinaryLeaves(start, EmptyLeaves(outs), AtOrEmpty(sub, ins));
    var goal := AtOrEmpty(leaves, indices);
    forall i ensures (i in u <==> i in goal) && (i in u ==> u[i] == goal[i]) {
      InBlock(indices, width, path, start, i);
      UnifyBlockAt(leaves, sub, indices, ins, outs, start, i);
    }
    assert u == goal;
  }

  // ---------------------------------------------------------------------------
  // The block of an edge
  // ---------------------------------------------------------------------------

  lemma BlockLeft(a: seq<int>, b: seq<int>, start: int, sub: seq<int>)
    requires IsBlock(a, start, sub) && AllZero(b)
    ensures IsBlock(a + b, start, sub)
  {}

  lemma BlockRight(a: seq<int>, b: seq<int>, start: int, sub: seq<int>)
    requires AllZero(a) && IsBlock(b, start, sub)
    ensures IsBlock(a + b, |a| + start, sub)
  {}

  lemma WholeBlock(a: seq<int>)
    ensures IsBlock(a, 0, a)
  {}

  lemma EmptyShown(H: Hash, n: nat, s: Preimages, v: VirtualNode, leaves: seq<int>, h: nat)
    requires CollisionFree(H, n) && h <= n && |leaves| == Pow2(h) && Shows(H, s, v, leaves, h) && v.bottom == 0
    ensures AllZero(leaves)
  {
    EncodeShape(H, leaves, h, n);
  }

  lemma EdgeShape(H: Hash, n: nat, s: Preimages, v: VirtualNode, leaves: seq<int>, h: nat)
    requires CollisionFree(H, n) && h <= n && |leaves| == Pow2(h) && Shows(H, s, v, leaves, h) && v.length > 0
    ensures v.bottom != 0 && v.length <= h == v.height && v.path < Pow2(v.length)
  {
    EncodeShape(H, leaves, h, n);
  }

  lemma TimesSum(m: int, rest: int, w: int)
    ensures (m + rest) * w == m * w + rest * w
  {}

  /** Where the block of an edge starts, step by step. */
  function BlockStart(path: nat, length: nat, width: nat): nat
    decreases length
  {
    if length == 0 then 0
    else (if GoesRight(path, length) then Pow2(length - 1 + width) else 0)
         + BlockStart(PathBelow(path, length), length - 1, width)
  }

  lemma {:induction false} BlockStartIs(path: nat, length: nat, width: nat)
    requires path < Pow2(length)
    ensures BlockStart(path, length, width) == path * Pow2(width)
    decreases length
  {
    if length > 0 {
      FirstStep(path, length);
      var rest := PathBelow(path, length);
      BlockStartIs(rest, length - 1, width);
      Pow2Add(length - 1, width);
      TimesSum(Pow2(length - 1), rest, Pow2(width));
    }
  }

  /** The half an edge leads to, and the other one. */
  function Taken(v: VirtualNode, leaves: seq<int>): (r: seq<int>)
    requires v.length > 0 && v.height > 0 && |leaves| == Pow2(v.height)
    ensures |r| == Pow2(v.height - 1)
  {
    if GoesRight(v.path, v.length) then RightHalf(leaves, v.height) else LeftHalf(leaves, v.height)
  }

  function Passed(v: VirtualNode, leaves: seq<int>): (r: seq<int>)
    requires v.length > 0 && v.height > 0 && |leaves| == Pow2(v.height)
    ensures |r| == Pow2(v.height - 1)
  {
    if GoesRight(v.path, v.length) then LeftHalf(leaves, v.height) else RightHalf(leaves, v.height)
  }

  function Shorter(v: VirtualNode): VirtualNode
    requires v.length > 0 && v.height > 0
  {
    VirtualNode(v.bottom, PathBelow(v.path, v.length), v.length - 1, v.height - 1)
  }

  lemma EdgeKids(s: Preimages, v: VirtualNode)
    requires 0 < v.length <= v.height && v.bottom != 0
    ensures NodeChildren(s, v)
         == Some(if GoesRight(v.path, v.length) then (EmptyNode(v.height - 1), Shorter(v)) else (Shorter(v), EmptyNode(v.height - 1)))
  {}

  /** One step down an edge: a shorter edge over one half, and the other half empty. */
  lemma EdgeStep(H: Hash, n: nat, s: Preimages, v: VirtualNode, leaves: seq<int>)
    requires CollisionFree(H, n) && v.height <= n && |leaves| == Pow2(v.height) && Shows(H, s, v, leaves, v.height) && v.length > 0
    ensures v.bottom != 0 && v.length <= v.height && v.path < Pow2(v.length)
    ensures AllZero(Passed(v, leaves)) && Shows(H, s, Shorter(v), Taken(v, leaves), v.height - 1)
  {
    var h := v.height;
    EdgeShape(H, n, s, v, leaves, h);
    var l, r, a, b := KidsShown(H, n, s, v, leaves, h);
    EdgeKids(s, v);
    EmptyShown(H, n, s, if GoesRight(v.path, v.length) then l else r, if GoesRight(v.path, v.length) then a else b, h - 1);
  }

  /** The part of the array below the bottom node of an edge. */
  function Below(v: VirtualNode, leaves: seq<int>): (r: seq<int>)
    requires v.length <= v.height && |leaves| == Pow2(v.height)
    ensures |r| == Pow2(v.height - v.length)
    decreases v.length
  {
    if v.length == 0 then leaves else Below(Shorter(v), Taken(v, leaves))
  }

  /** Step by step, an edge passes empty halves until its bottom node shows what is below. */
  ghost predicate Slides(H: Hash, s: Preimages, v: VirtualNode, leaves: seq<int>)
    requires v.length <= v.height && |leaves| == Pow2(v.height)
    decreases v.length
  {
    if v.length == 0 then Shows(H, s, FromHash(v.bottom, v.height), leaves, v.height)
    else AllZero(Passed(v, leaves)) && Slides(H, s, Shorter(v), Taken(v, leaves))
  }

  lemma NoEdge(H: Hash, s: Preimages, v: VirtualNode, leaves: seq<int>)
    requires |leaves| == Pow2(v.height) && Shows(H, s, v, leaves, v.height) && v.length == 0 && v.path == 0
    ensures Slides(H, s, v, leaves)
  {
    assert v == FromHash(v.bottom, v.height);
  }

  lemma {:induction false} EdgeSlides(H: Hash, n: nat, s: Preimages, v: VirtualNode, leaves: seq<int>)
    requires CollisionFree(H, n) && v.height <= n && |leaves| == Pow2(v.height) && Shows(H, s, v, leaves, v.height)
    requires v.length <= v.height && v.path < Pow2(v.length)
    ensures Slides(H, s, v, leaves)
    decreases v.length
  {
    if v.length == 0 {
      NoEdge(H, s, v, leaves);
    } else {
      EdgeStep(H, n, s, v, leaves);
      FirstStep(v.path, v.length);
      EdgeSlides(H, n, s, Shorter(v), Taken(v, leaves));
    }
  }

  /** The bottom node of an edge shows the part below it. */
  lemma {:induction false} BelowShown(H: Hash, s: Preimages, v: VirtualNode, leaves: seq<int>)
    requires v.length <= v.height && |leaves| == Pow2(v.height) && Slides(H, s, v, leaves)
    ensures Shows(H, s, FromHash(v.bottom, v.height - v.length), Below(v, leaves), v.height - v.length)
    decreases v.length
  {
    if v.length > 0 { BelowShown(H, s, Shorter(v), Taken(v, leaves)); }
  }

  /** The step back up: a block of a half is a block of the whole. */
  lemma BlockUp(v: VirtualNode, width: nat, leaves: seq<int>, sub: seq<int>)
    requires v.length > 0 && v.height == v.length + width && |leaves| == Pow2(v.height) && AllZero(Passed(v, leaves))
    requires IsBlock(Taken(v, leaves), BlockStart(PathBelow(v.path, v.length), v.length - 1, width), sub)
    ensures IsBlock(leaves, BlockStart(v.path, v.length, width), sub)
  {
    var start := BlockStart(PathBelow(v.path, v.length), v.length - 1, width);
    var a, b := LeftHalf(leaves, v.height), RightHalf(leaves, v.height);
    assert leaves == a + b;
    if GoesRight(v.path, v.length) {
      BlockRight(a, b, start, sub);
    } else {
      BlockLeft(a, b, start, sub);
    }
  }

  /** All else is empty. */
  lemma {:induction false} BelowIsBlock(H: Hash, s: Preimages, v: VirtualNode, leaves: seq<int>)
    requires v.length <= v.height && |leaves| == Pow2(v.height) && Slides(H, s, v, leaves)
    ensures IsBlock(leaves, BlockStart(v.path, v.length, v.height - v.length), Below(v, leaves))
    decreases v.length
  {
    if v.length == 0 {
      WholeBlock(leaves);
    } else {
      BelowIsBlock(H, s, Shorter(v), Taken(v, leaves));
      BlockUp(v, v.height - v.length, leaves, Below(v, leaves));
    }
  }

  // ---------------------------------------------------------------------------
  // Reading leaves
  // ---------------------------------------------------------------------------

  lemma EmptyReads(s: Preimages, v: VirtualNode, leaves: seq<int>, indices: seq<int>)
    requires v.bottom == 0 && AllZero(leaves)
    ensures ReadsAs(ReadLeaves(s, v, indices), leaves, indices, false)
  {
    assert EmptyLeaves(indices) == AtOrEmpty(leaves, indices);
    assert AtOrEmpty(leaves, []) == map[];
  }

  lemma NoIndices(s: Preimages, v: VirtualNode, leaves: seq<int>)
    ensures ReadsAs(ReadLeaves(s, v, []), leaves, [], false)
  {
    assert AtOrEmpty(leaves, []) == map[];
  }

  lemma LeafReads(s: Preimages, x: int, indices: seq<int>)
    requires x != 0 && indices != []
    ensures ReadsAs(ReadLeaves(s, FromHash(x, 0), indices), [x], indices, SomeNegative(indices) || SomeBeyond(indices, 1))
  {
    if forall i :: i in indices ==> i == 0 {
      assert indices[0] in indices;
      assert AtOrEmpty([x], indices) == map[0 := x];
    } else {
      var i :| i in indices && i != 0;
      assert i < 0 || i >= 1;
    }
  }

  lemma EdgeReads(s: Preimages, v: VirtualNode, leaves: seq<int>, sub: seq<int>, width: nat, indices: seq<int>)
    requires indices != [] && v.bottom != 0 && v.length > 0 && v.length + width == v.height && v.path < Pow2(v.length)
    requires |sub| == Pow2(width) && IsBlock(leaves, BlockStart(v.path, v.length, width), sub)
    requires var ins := InsideBlock(indices, width, v.path);
      ReadsAs(ReadLeaves(s, FromHash(v.bottom, width), ins), sub, ins, false)
    ensures ReadsAs(ReadLeaves(s, v, indices), leaves, indices, false)
  {
    var start := BlockStart(v.path, v.length, width);
    BlockStartIs(v.path, v.length, width);
    UnifyBlock(leaves, sub, indices, width, v.path, start);
  }

  lemma BinaryReads(s: Preimages, v: VirtualNode, l: VirtualNode, r: VirtualNode, a: seq<int>, b: seq<int>, indices: seq<int>,
                    lr: bool, rr: bool)
    requires indices != [] && v.bottom != 0 && v.length == 0 && v.height > 0
    requires NodeChildren(s, v) == Some((l, r)) && l.height == r.height == v.height - 1
    requires |a| == |b| == Pow2(v.height - 1)
    requires var li := B.LeftIndices(indices, Pow2(v.height - 1)); ReadsAs(ReadLeaves(s, l, li), a, li, lr)
    requires var ri := B.RightIndices(indices, Pow2(v.height - 1)); ReadsAs(ReadLeaves(s, r, ri), b, ri, rr)
    ensures ReadsAs(ReadLeaves(s, v, indices), a + b, indices, lr || rr)
  {
    UnifyHalves(a, b, indices, Pow2(v.height - 1));
  }

  lemma EdgeBelow(H: Hash, n: nat, s: Preimages, v: VirtualNode, leaves: seq<int>)
    requires CollisionFree(H, n) && v.height <= n && |leaves| == Pow2(v.height) && Shows(H, s, v, leaves, v.height) && v.length > 0
    ensures v.bottom != 0 && v.length <= v.height && v.path < Pow2(v.length)
    ensures Shows(H, s, FromHash(v.bottom, v.height - v.length), Below(v, leaves), v.height - v.length)
    ensures IsBlock(leaves, BlockStart(v.path, v.length, v.height - v.length), Below(v, leaves))
  {
    EdgeShape(H, n, s, v, leaves, v.height);
    EdgeSlides(H, n, s, v, leaves);
    BelowShown(H, s, v, leaves);
    BelowIsBlock(H, s, v, leaves);
  }

  // ---------------------------------------------------------------------------
  // Which trees refuse an index out of range
  // ---------------------------------------------------------------------------

  lemma ZeroPartLeft(a: seq<int>, b: seq<int>, start: int, end: int)
    requires end <= |a|
    ensures ZeroPart(a + b, start, end) <==> ZeroPart(a, start, end)
  {
    if ZeroPart(a + b, start, end) {
      forall i | 0 <= i < |a| && start <= i < end ensures a[i] == 0 { assert (a + b)[i] == a[i]; }
    }
  }

  lemma ZeroPartRight(a: seq<int>, b: seq<int>, start: int, end: int)
    requires start >= |a|
    ensures ZeroPart(a + b, start, end) <==> ZeroPart(b, start - |a|, end - |a|)
  {
    if ZeroPart(a + b, start, end) {
      forall i | 0 <= i < |b| && start - |a| <= i < end - |a| ensures b[i] == 0 { assert (a + b)[|a| + i] == b[i]; }
    }
  }

  lemma ZeroPartJoins(a: seq<int>, b: seq<int>, start: int)
    requires 0 <= start <= |a|
    ensures ZeroPart(a + b, start, |a| + |b|) <==> ZeroPart(a, start, |a|) && AllZero(b)
    ensures ZeroPart(a + b, 0, |a| + start) <==> AllZero(a) && ZeroPart(b, 0, start)
  {
    if ZeroPart(a + b, start, |a| + |b|) {
      forall i | 0 <= i < |b| ensures b[i] == 0 { assert (a + b)[|a| + i] == b[i]; }
      forall i | 0 <= i < |a| && start <= i ensures a[i] == 0 { assert (a + b)[i] == a[i]; }
    }
    if ZeroPart(a + b, 0, |a| + start) {
      forall i | 0 <= i < |a| ensures a[i] == 0 { assert (a + b)[i] == a[i]; }
      forall i | 0 <= i < |b| && i < start ensures b[i] == 0 { assert (a + b)[|a| + i] == b[i]; }
    }
  }

  /** The second half of the first half and the whole second half are empty. */
  ghost predicate EmptyAfter(a: seq<int>, b: seq<int>, h: nat)
    requires h > 0
  {
    h > 1 && ZeroPart(a, Pow2(h - 2), |a|) && AllZero(b)
  }

  ghost predicate EmptyBefore(a: seq<int>, b: seq<int>, h: nat)
    requires h > 0
  {
    h > 1 && AllZero(a) && ZeroPart(b, 0, |b| - Pow2(h - 2))
  }

  lemma GuardsLowStep(a: seq<int>, b: seq<int>, h: nat)
    requires h > 0 && |a| == |b| == Pow2(h - 1)
    ensures |a + b| == Pow2(h)
    ensures GuardsLow(a + b, h) <==> GuardsLow(a, h - 1) && !EmptyAfter(a, b, h)
  {
    forall k: nat | k + 2 <= h - 1
      ensures ZeroPart(a + b, Pow2(k), Pow2(k + 2)) <==> ZeroPart(a, Pow2(k), Pow2(k + 2))
    {
      Pow2Monotone(k + 2, h - 1);
      ZeroPartLeft(a, b, Pow2(k), Pow2(k + 2));
    }
    if h > 1 {
      ZeroPartJoins(a, b, Pow2(h - 2));
      assert Pow2(h - 2 + 2) == |a| + |b|;
    }
  }

  lemma GuardsHighStep(a: seq<int>, b: seq<int>, h: nat)
    requires h > 0 && |a| == |b| == Pow2(h - 1)
    ensures |a + b| == Pow2(h)
    ensures GuardsHigh(a + b, h) <==> GuardsHigh(b, h - 1) && !EmptyBefore(a, b, h)
  {
    var size := |a + b|;
    forall k: nat | k + 2 <= h - 1
      ensures ZeroPart(a + b, size - Pow2(k + 2), size - Pow2(k)) <==> ZeroPart(b, |b| - Pow2(k + 2), |b| - Pow2(k))
    {
      Pow2Monotone(k + 2, h - 1);
      ZeroPartRight(a, b, size - Pow2(k + 2), size - Pow2(k));
    }
    if h > 1 {
      ZeroPartJoins(a, b, |b| - Pow2(h - 2));
      assert Pow2(h - 2 + 2) == |a| + |b|;
    }
  }

  /** The children of a node held without an edge: bare, or what is left of the edge it stands for. */
  lemma {:induction false} KidLengths(H: Hash, n: nat, s: Preimages, v: VirtualNode, leaves: seq<int>, h: nat)
    requires CollisionFree(H, n) && 0 < h <= n && |leaves| == Pow2(h) && Shows(H, s, v, leaves, h)
    ensures NodeChildren(s, v).Some?
    ensures var l, r := LeftHalf(leaves, h), RightHalf(leaves, h);
      var (x, y) := NodeChildren(s, v).value;
      if !AllZero(l) && !AllZero(r) then x.length == y.length == 0
      else x.length == Encode(H, l, h - 1).length && y.length == Encode(H, r, h - 1).length
  {
    var l, r := LeftHalf(leaves, h), RightHalf(leaves, h);
    EncodeShape(H, l, h - 1, n);
    EncodeShape(H, r, h - 1, n);
    NodeCanonical(H, leaves, h, n);
    assert StoredBelow(H, s, leaves, h);
    StoredHalves(H, s, leaves, h, n);
    var el, er := Encode(H, l, h - 1), Encode(H, r, h - 1);
    if el != EMPTY && er != EMPTY { BinaryBottom(H, el, er, n); }
    JoinedChildren(H, s, v, el, er);
  }

  /** An array whose first leaf is set is an edge exactly when its second half is empty. */
  lemma FirstSetLength(H: Hash, n: nat, leaves: seq<int>, h: nat)
    requires CollisionFree(H, n) && h <= n && |leaves| == Pow2(h) && leaves[0] != 0
    ensures Encode(H, leaves, h).length > 0 <==> h > 0 && ZeroPart(leaves, Pow2(h - 1), |leaves|)
  {
    if h > 0 {
      var l, r := LeftHalf(leaves, h), RightHalf(leaves, h);
      assert leaves == l + r && l[0] == leaves[0];
      EncodeShape(H, l, h - 1, n);
      EncodeShape(H, r, h - 1, n);
      ZeroPartRight(l, r, |l|, |leaves|);
      assert AllZero(r) <==> ZeroPart(r, 0, |r|);
    }
  }

  lemma LastSetLength(H: Hash, n: nat, leaves: seq<int>, h: nat)
    requires CollisionFree(H, n) && h <= n && |leaves| == Pow2(h) && leaves[|leaves| - 1] != 0
    ensures Encode(H, leaves, h).length > 0 <==> h > 0 && ZeroPart(leaves, 0, |leaves| - Pow2(h - 1))
  {
    if h > 0 {
      var l, r := LeftHalf(leaves, h), RightHalf(leaves, h);
      assert leaves == l + r && r[|r| - 1] == leaves[|leaves| - 1];
      EncodeShape(H, l, h - 1, n);
      EncodeShape(H, r, h - 1, n);
      ZeroPartLeft(l, r, 0, |l|);
      assert AllZero(l) <==> ZeroPart(l, 0, |l|);
    }
  }

  lemma FirstKid(H: Hash, n: nat, s: Preimages, v: VirtualNode, a: seq<int>, b: seq<int>, h: nat)
    requires CollisionFree(H, n) && 0 < h <= n && |a| == |b| == Pow2(h - 1) && |a + b| == Pow2(h) && Shows(H, s, v, a + b, h)
    requires a[0] != 0
    ensures NodeChildren(s, v).Some?
    ensures NodeChildren(s, v).value.0.length == 0 <==> !EmptyAfter(a, b, h)
  {
    HalvesOfSum(a, b, h);
    KidLengths(H, n, s, v, a + b, h);
    FirstSetLength(H, n, a, h - 1);
  }

  lemma {:induction false} LastKid(H: Hash, n: nat, s: Preimages, v: VirtualNode, a: seq<int>, b: seq<int>, h: nat)
    requires CollisionFree(H, n) && 0 < h <= n && |a| == |b| == Pow2(h - 1) && |a + b| == Pow2(h) && Shows(H, s, v, a + b, h)
    requires b[|b| - 1] != 0
    ensures NodeChildren(s, v).Some?
    ensures NodeChildren(s, v).value.1.length == 0 <==> !EmptyBefore(a, b, h)
  {
    HalvesOfSum(a, b, h);
    KidLengths(H, n, s, v, a + b, h);
    LastSetLength(H, n, b, h - 1);
  }

  lemma LowStep(H: Hash, n: nat, s: Preimages, v: VirtualNode, l: VirtualNode, a: seq<int>, b: seq<int>, h: nat)
    requires CollisionFree(H, n) && 0 < h <= n && |a| == |b| == Pow2(h - 1) && |a + b| == Pow2(h) && Shows(H, s, v, a + b, h)
    requires NodeChildren(s, v).Some? && l == NodeChildren(s, v).value.0
    ensures GuardsLow(a + b, h) <==> l.length == 0 && GuardsLow(a, h - 1)
  {
    GuardsLowStep(a, b, h);
    if a[0] != 0 { FirstKid(H, n, s, v, a, b, h); }
  }

  lemma HighStep(H: Hash, n: nat, s: Preimages, v: VirtualNode, r: VirtualNode, a: seq<int>, b: seq<int>, h: nat)
    requires CollisionFree(H, n) && 0 < h <= n && |a| == |b| == Pow2(h - 1) && |a + b| == Pow2(h) && Shows(H, s, v, a + b, h)
    requires NodeChildren(s, v).Some? && r == NodeChildren(s, v).value.1
    ensures GuardsHigh(a + b, h) <==> r.length == 0 && GuardsHigh(b, h - 1)
  {
    GuardsHighStep(a, b, h);
    if b[|b| - 1] != 0 { LastKid(H, n, s, v, a, b, h); }
  }

  /** A node without an edge refuses what one of its children refuses. */
  lemma RefusesStep(H: Hash, n: nat, s: Preimages, v: VirtualNode, l: VirtualNode, r: VirtualNode, a: seq<int>, b: seq<int>, indices: seq<int>)
    requires CollisionFree(H, n) && 0 < v.height <= n && |a| == |b| == Pow2(v.height - 1) && |a + b| == Pow2(v.height)
    requires Shows(H, s, v, a + b, v.height) && v.length == 0
    requires NodeChildren(s, v) == Some((l, r)) && l.height == r.height == v.height - 1
    ensures var li, ri := B.LeftIndices(indices, Pow2(v.height - 1)), B.RightIndices(indices, Pow2(v.height - 1));
      Refuses(v, a + b, indices) <==> Refuses(l, a, li) || Refuses(r, b, ri)
  {
    HalvesOutside(indices, Pow2(v.height - 1));
    LowStep(H, n, s, v, l, a, b, v.height);
    HighStep(H, n, s, v, r, a, b, v.height);
  }

  lemma {:induction false} EdgeCase(H: Hash, n: nat, s: Preimages, v: VirtualNode, leaves: seq<int>, indices: seq<int>)
    requires CollisionFree(H, n) && v.height <= n && |leaves| == Pow2(v.height) && Shows(H, s, v, leaves, v.height)
    requires indices != [] && v.length > 0
    ensures ReadsAs(ReadLeaves(s, v, indices), leaves, indices, false)
    decreases v.height, 0
  {
    EdgeBelow(H, n, s, v, leaves);
    var width := v.height - v.length;
    InsideIsInside(indices, width, v.path);
    ReadLeavesIs(H, n, s, FromHash(v.bottom, width), Below(v, leaves), InsideBlock(indices, width, v.path));
    EdgeReads(s, v, leaves, Below(v, leaves), width, indices);
  }

  lemma {:induction false} BinaryCase(H: Hash, n: nat, s: Preimages, v: VirtualNode, leaves: seq<int>, indices: seq<int>)
    requires CollisionFree(H, n) && 0 < v.height <= n && |leaves| == Pow2(v.height) && Shows(H, s, v, leaves, v.height)
    requires indices != [] && v.length == 0 && v.bottom != 0
    ensures ReadsAs(ReadLeaves(s, v, indices), leaves, indices, Refuses(v, leaves, indices))
    decreases v.height, 0
  {
    var l, r, a, b := KidsShown(H, n, s, v, leaves, v.height);
    var li, ri := B.LeftIndices(indices, Pow2(v.height - 1)), B.RightIndices(indices, Pow2(v.height - 1));
    ReadLeavesIs(H, n, s, l, a, li);
    ReadLeavesIs(H, n, s, r, b, ri);
    BinaryReads(s, v, l, r, a, b, indices, Refuses(l, a, li), Refuses(r, b, ri));
    RefusesStep(H, n, s, v, l, r, a, b, indices);
  }

  lemma SmallCase(H: Hash, n: nat, s: Preimages, v: VirtualNode, leaves: seq<int>, indices: seq<int>)
    requires CollisionFree(H, n) && v.height <= n && |leaves| == Pow2(v.height) && Shows(H, s, v, leaves, v.height)
    requires indices == [] || v.bottom == 0 || v.height == 0
    ensures ReadsAs(ReadLeaves(s, v, indices), leaves, indices, Refuses(v, leaves, indices))
  {
    if indices == [] {
      NoIndices(s, v, leaves);
    } else if v.bottom == 0 {
      EmptyShown(H, n, s, v, leaves, v.height);
      EmptyReads(s, v, leaves, indices);
    } else {
      LeafShown(H, s, v, leaves);
      LeafReads(s, v.bottom, indices);
      assert leaves == [v.bottom];
    }
  }

  /** Main result: when _get_leaves on a Patricia node fails, and what it answers otherwise. */
  lemma {:induction false} ReadLeavesIs(H: Hash, n: nat, s: Preimages, v: VirtualNode, leaves: seq<int>, indices: seq<int>)
    requires CollisionFree(H, n) && v.height <= n && |leaves| == Pow2(v.height) && Shows(H, s, v, leaves, v.height)
    ensures ReadsAs(ReadLeaves(s, v, indices), leaves, indices, Refuses(v, leaves, indices))
    decreases v.height, 1
  {
    if indices == [] || v.bottom == 0 || v.height == 0 {
      SmallCase(H, n, s, v, leaves, indices);
    } else if v.length > 0 {
      EdgeCase(H, n, s, v, leaves, indices);
    } else {
      BinaryCase(H, n, s, v, leaves, indices);
    }
  }

  /** Every tree that an update leaves behind reads back its leaves. Indices out of range fail exactly
      as `TreeRefuses` says; otherwise they are answered with the empty leaf. */
  lemma TreeReads(H: Hash, n: nat, stored: Calculation.Facts, root: int, leaves: seq<int>, h: nat, indices: seq<int>)
    requires CollisionFree(H, n) && h <= n && |leaves| == Pow2(h)
    requires PatriciaUpdate.Represents(H, n, stored, root, leaves, h)
    ensures ReadLeaves(stored.inner, FromHash(root, h), indices)
         == if TreeRefuses(leaves, h, indices) then None else Some(AtOrEmpty(leaves, indices))
    ensures AllInside(indices, |leaves|) ==> !TreeRefuses(leaves, h, indices)
  {
    ReadLeavesIs(H, n, stored.inner, FromHash(root, h), leaves, indices);
  }

  lemma LeafPair(H: Hash, x: int, y: int)
    ensures Encode(H, [x, y], 1) == Join(H, Triplet(0, 0, x), Triplet(0, 0, y))
  {
    assert LeftHalf([x, y], 1) == [x] && RightHalf([x, y], 1) == [y];
  }

  /** A tree of height 1 with an empty left leaf answers the index -1. */
  lemma NegativeAnswered(H: Hash, s: Preimages, y: int)
    requires CollisionFree(H, 1) && y != 0 && Holds(H, s, EdgeFact(y, 1, 1))
    ensures ReadLeaves(s, FromHash(Root(H, [0, y], 1), 1), [-1]) == Some(map[-1 := 0])
  {
    LeafPair(H, 0, y);
    ReadLeavesIs(H, 1, s, FromHash(Root(H, [0, y], 1), 1), [0, y], [-1]);
    assert AtOrEmpty([0, y], [-1]) == map[-1 := 0];
  }

  /** One with two leaves fails on it. */
  lemma NegativeRefused(H: Hash, s: Preimages, x: int, y: int)
    requires CollisionFree(H, 1) && x != 0 && y != 0 && Holds(H, s, BinaryFact(x, y))
    ensures ReadLeaves(s, FromHash(Root(H, [x, y], 1), 1), [-1]) == None
  {
    LeafPair(H, x, y);
    ReadLeavesIs(H, 1, s, FromHash(Root(H, [x, y], 1), 1), [x, y], [-1]);
    assert -1 in [-1];
  }

  /** The same at one input each: index -1 over the leaves 0 and 7, and over 5 and 7. */
  lemma NegativeIndex()
    ensures var H := PairingHash.Scaled(1);
      var edge, pair := EdgeFact(7, 1, 1), BinaryFact(5, 7);
      && ReadLeaves(map[HashFact(H, edge) := edge], FromHash(Root(H, [0, 7], 1), 1), [-1]) == Some(map[-1 := 0])
      && ReadLeaves(map[HashFact(H, pair) := pair], FromHash(Root(H, [5, 7], 1), 1), [-1]) == None
  {
    var H := PairingHash.Scaled(1);
    PairingHash.ScaledIsCollisionFree(1);
    var edge, pair := EdgeFact(7, 1, 1), BinaryFact(5, 7);
    NegativeAnswered(H, map[HashFact(H, edge) := edge], 7);
    NegativeRefused(H, map[HashFact(H, pair) := pair], 5, 7);
  }
}
