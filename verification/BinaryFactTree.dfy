/**
 Reading leaves and comparing trees through the children of a node
 (src/starkware/starkware_utils/commitment_tree/binary_fact_tree_node.py).
 */
module BinaryFactTree {
  import opened Common

  /** What get_children and the leaf facts show of the nodes of a storage. */
  datatype View<!N, !V> = View(kids: N -> (N, N), leaf: N -> V)

  /** The leaves below a node of height `h`. */
  ghost function Contents<N, V>(w: View<N, V>, n: N, h: nat): (r: seq<V>)
    ensures |r| == Pow2(h)
  {
    if h == 0 then [w.leaf(n)] else Contents(w, w.kids(n).0, h - 1) + Contents(w, w.kids(n).1, h - 1)
  }

  // ---------------------------------------------------------------------------
  // _get_leaves
  // ---------------------------------------------------------------------------

  function LeftIndices(indices: seq<int>, mid: int): seq<int> {
    if indices == [] then []
    else (if indices[0] < mid then [indices[0]] else []) + LeftIndices(indices[1..], mid)
  }

  function RightIndices(indices: seq<int>, mid: int): seq<int> {
    if indices == [] then []
    else (if indices[0] >= mid then [indices[0] - mid] else []) + RightIndices(indices[1..], mid)
  }

  lemma {:induction false} InLeft(indices: seq<int>, mid: int, i: int)
    ensures i in LeftIndices(indices, mid) <==> i in indices && i < mid
  {
    if indices != [] { InLeft(indices[1..], mid, i); }
  }

  lemma {:induction false} InRight(indices: seq<int>, mid: int, i: int)
    ensures i - mid in RightIndices(indices, mid) <==> i in indices && i >= mid
  {
    if indices != [] { InRight(indices[1..], mid, i); }
  }

  function Shift(keys: set<int>, mid: int): set<int> {
    set k | k in keys :: k + mid
  }

  lemma InShift(keys: set<int>, mid: int, i: int)
    ensures i in Shift(keys, mid) <==> i - mid in keys
  {
    if i - mid in keys { assert (i - mid) + mid == i; }
  }

  lemma ShiftBack(keys: set<int>, mid: int)
    ensures forall i :: i in Shift(keys, mid) ==> i - mid in keys
  {
    forall i | i in Shift(keys, mid) ensures i - mid in keys { InShift(keys, mid, i); }
  }

  /** unify_binary_leaves */
  function UnifyBinaryLeaves<V>(mid: int, left: map<int, V>, right: map<int, V>): map<int, V> {
    ShiftBack(right.Keys, mid);
    left + (map i | i in Shift(right.Keys, mid) :: right[i - mid])
  }

  /** _get_leaves of the base class; None is the assertion on the range. A half without indices yields no leaves. */
  function GetLeaves<N, V>(w: View<N, V>, n: N, h: nat, indices: seq<int>): Option<map<int, V>>
    decreases h
  {
    if indices == [] then Some(map[])
    else if h == 0 then
      if forall i :: i in indices ==> i == 0 then Some(map[0 := w.leaf(n)]) else None
    else
      var mid := Pow2(h - 1);
      var left := GetLeaves(w, w.kids(n).0, h - 1, LeftIndices(indices, mid));
      var right := GetLeaves(w, w.kids(n).1, h - 1, RightIndices(indices, mid));
      if left.None? || right.None? then None else Some(UnifyBinaryLeaves(mid, left.value, right.value))
  }

  ghost predicate AllInRange(indices: seq<int>, h: nat) {
    forall i :: i in indices ==> 0 <= i < Pow2(h)
  }

  ghost function LeavesAt<V>(leaves: seq<V>, indices: seq<int>): map<int, V> {
    map i | i in indices && 0 <= i < |leaves| :: leaves[i]
  }

  lemma SplitRange(indices: seq<int>, h: nat)
    requires h > 0
    ensures var mid := Pow2(h - 1);
      AllInRange(indices, h) <==> AllInRange(LeftIndices(indices, mid), h - 1) && AllInRange(RightIndices(indices, mid), h - 1)
  {
    var mid := Pow2(h - 1);
    if AllInRange(LeftIndices(indices, mid), h - 1) && AllInRange(RightIndices(indices, mid), h - 1) {
      forall i | i in indices ensures 0 <= i < Pow2(h) {
        InLeft(indices, mid, i);
        InRight(indices, mid, i);
        if i >= mid { assert i - mid in RightIndices(indices, mid); }
      }
    }
    if AllInRange(indices, h) {
      forall i | i in LeftIndices(indices, mid) ensures 0 <= i < Pow2(h - 1) { InLeft(indices, mid, i); }
      forall i | i in RightIndices(indices, mid) ensures 0 <= i < Pow2(h - 1) { InRight(indices, mid, i + mid); }
    }
  }

  lemma UnifyAt<V>(a: seq<V>, b: seq<V>, indices: seq<int>, mid: int, i: int)
    requires |a| == mid
    ensures var u := UnifyBinaryLeaves(mid, LeavesAt(a, LeftIndices(indices, mid)), LeavesAt(b, RightIndices(indices, mid)));
      var goal := LeavesAt(a + b, indices);
      (i in u <==> i in goal) && (i in u ==> u[i] == goal[i])
  {
    InLeft(indices, mid, i);
    InRight(indices, mid, i);
    InShift(LeavesAt(b, RightIndices(indices, mid)).Keys, mid, i);
  }

  lemma UnifyIs<V>(a: seq<V>, b: seq<V>, indices: seq<int>, mid: int)
    requires |a| == mid
    ensures UnifyBinaryLeaves(mid, LeavesAt(a, LeftIndices(indices, mid)), LeavesAt(b, RightIndices(indices, mid)))
         == LeavesAt(a + b, indices)
  {
    var u := UnifyBinaryLeaves(mid, LeavesAt(a, LeftIndices(indices, mid)), LeavesAt(b, RightIndices(indices, mid)));
    var goal := LeavesAt(a + b, indices);
    forall i ensures (i in u <==> i in goal) && (i in u ==> u[i] == goal[i]) { UnifyAt(a, b, indices, mid, i); }
    assert u == goal;
  }

  /** The node answers for the indices as the array `leaves` would. */
  ghost predicate Answers<N, V>(w: View<N, V>, n: N, h: nat, indices: seq<int>, leaves: seq<V>) {
    GetLeaves(w, n, h, indices) == if AllInRange(indices, h) then Some(LeavesAt(leaves, indices)) else None
  }

  lemma EmptyCase<N, V>(w: View<N, V>, n: N, h: nat, leaves: seq<V>)
    ensures Answers(w, n, h, [], leaves)
  {
    assert LeavesAt(leaves, []) == map[];
  }

  lemma LeafCase<N, V>(w: View<N, V>, n: N, indices: seq<int>)
    requires indices != []
    ensures Answers(w, n, 0, indices, [w.leaf(n)])
  {
    if forall i :: i in indices ==> i == 0 {
      assert indices[0] in indices;
      assert LeavesAt([w.leaf(n)], indices) == map[0 := w.leaf(n)];
      assert AllInRange(indices, 0);
    } else {
      var i :| i in indices && i != 0;
      assert !(0 <= i < Pow2(0));
    }
  }

  lemma BinaryCase<N, V>(w: View<N, V>, n: N, h: nat, indices: seq<int>, a: seq<V>, b: seq<V>)
    requires h > 0 && indices != [] && |a| == Pow2(h - 1)
    requires Answers(w, w.kids(n).0, h - 1, LeftIndices(indices, Pow2(h - 1)), a)
    requires Answers(w, w.kids(n).1, h - 1, RightIndices(indices, Pow2(h - 1)), b)
    ensures Answers(w, n, h, indices, a + b)
  {
    SplitRange(indices, h);
    UnifyIs(a, b, indices, Pow2(h - 1));
  }

  lemma {:induction false} NodeAnswers<N, V>(w: View<N, V>, n: N, h: nat, indices: seq<int>, leaves: seq<V>)
    requires leaves == Contents(w, n, h)
    ensures Answers(w, n, h, indices, leaves)
    decreases h
  {
    if indices == [] {
      EmptyCase(w, n, h, leaves);
    } else if h == 0 {
      LeafCase(w, n, indices);
    } else {
      var a, b := Contents(w, w.kids(n).0, h - 1), Contents(w, w.kids(n).1, h - 1);
      NodeAnswers(w, w.kids(n).0, h - 1, LeftIndices(indices, Pow2(h - 1)), a);
      NodeAnswers(w, w.kids(n).1, h - 1, RightIndices(indices, Pow2(h - 1)), b);
      BinaryCase(w, n, h, indices, a, b);
    }
  }

  /** Main result: the leaves at the indices, exactly when all indices are in range. */
  lemma GetLeavesIs<N, V>(w: View<N, V>, n: N, h: nat, indices: seq<int>)
    ensures GetLeaves(w, n, h, indices)
         == if AllInRange(indices, h) then Some(LeavesAt(Contents(w, n, h), indices)) else None
  {
    NodeAnswers(w, n, h, indices, Contents(w, n, h));
  }

  // ---------------------------------------------------------------------------
  // get_diff_between_trees
  // ---------------------------------------------------------------------------

  /** A pair of nodes on the work list. */
  datatype Item<N> = Item(path: nat, prev: N, cur: N, h: nat)

  /** What the callback appends for a pair of leaves. */
  function Report<N, V>(w: View<N, V>, item: Item<N>): (nat, V, V) {
    (item.path, w.leaf(item.prev), w.leaf(item.cur))
  }

  function LeftItem<N, V>(w: View<N, V>, item: Item<N>): Item<N>
    requires item.h > 0
  {
    Item(2 * item.path, w.kids(item.prev).0, w.kids(item.cur).0, item.h - 1)
  }

  function RightItem<N, V>(w: View<N, V>, item: Item<N>): Item<N>
    requires item.h > 0
  {
    Item(2 * item.path + 1, w.kids(item.prev).1, w.kids(item.cur).1, item.h - 1)
  }

  /** The pairs that the callback yields. */
  function Yielded<N(==), V>(w: View<N, V>, item: Item<N>): seq<Item<N>>
    requires item.h > 0
  {
    var l, r := LeftItem(w, item), RightItem(w, item);
    (if l.prev != l.cur then [l] else []) + (if r.prev != r.cur then [r] else [])
  }

  /** All reports of a traversal from an item, in one order. */
  ghost function Diffs<N, V>(w: View<N, V>, item: Item<N>): seq<(nat, V, V)>
    decreases item.h
  {
    if item.h == 0 then [Report(w, item)]
    else
      var l, r := LeftItem(w, item), RightItem(w, item);
      (if l.prev != l.cur then Diffs(w, l) else []) + (if r.prev != r.cur then Diffs(w, r) else [])
  }

  ghost function AllDiffs<N, V>(w: View<N, V>, items: seq<Item<N>>): seq<(nat, V, V)> {
    if items == [] then [] else Diffs(w, items[0]) + AllDiffs(w, items[1..])
  }

  lemma {:induction false} AllDiffsConcat<N, V>(w: View<N, V>, a: seq<Item<N>>, b: seq<Item<N>>)
    ensures AllDiffs(w, a + b) == AllDiffs(w, a) + AllDiffs(w, b)
  {
    if a == [] {
      assert a + b == b;
    } else {
      assert (a + b)[1..] == a[1..] + b;
      AllDiffsConcat(w, a[1..], b);
    }
  }

  lemma YieldedDiffs<N, V>(w: View<N, V>, item: Item<N>)
    requires item.h > 0
    ensures AllDiffs(w, Yielded(w, item)) == Diffs(w, item)
  {
    var l, r := LeftItem(w, item), RightItem(w, item);
    var a, b := if l.prev != l.cur then [l] else [], if r.prev != r.cur then [r] else [];
    AllDiffsConcat(w, a, b);
    assert [l][1..] == [] && [r][1..] == [];
  }

  lemma PickOut<N, V>(w: View<N, V>, items: seq<Item<N>>, k: nat)
    requires k < |items|
    ensures multiset(AllDiffs(w, items))
         == multiset(AllDiffs(w, items[..k] + items[k + 1..])) + multiset(Diffs(w, items[k]))
  {
    var a, x, b := items[..k], items[k], items[k + 1..];
    assert items == a + ([x] + b);
    AllDiffsConcat(w, a, [x] + b);
    assert ([x] + b)[1..] == b;
    AllDiffsConcat(w, a, b);
  }

  /** The longest the work below an item can take. */
  ghost function Work(h: nat): nat {
    Pow2(h + 1) - 1
  }

  ghost function AllWork<N>(items: seq<Item<N>>): nat {
    if items == [] then 0 else Work(items[0].h) + AllWork(items[1..])
  }

  lemma {:induction false} AllWorkConcat<N>(a: seq<Item<N>>, b: seq<Item<N>>)
    ensures AllWork(a + b) == AllWork(a) + AllWork(b)
  {
    if a == [] {
      assert a + b == b;
    } else {
      assert (a + b)[1..] == a[1..] + b;
      AllWorkConcat(a[1..], b);
    }
  }

  lemma PickWork<N>(items: seq<Item<N>>, k: nat)
    requires k < |items|
    ensures AllWork(items) == AllWork(items[..k] + items[k + 1..]) + Work(items[k].h)
  {
    var a, x, b := items[..k], items[k], items[k + 1..];
    assert items == a + ([x] + b);
    AllWorkConcat(a, [x] + b);
    assert ([x] + b)[1..] == b;
    AllWorkConcat(a, b);
  }

  lemma YieldedWork<N, V>(w: View<N, V>, item: Item<N>)
    requires item.h > 0
    ensures AllWork(Yielded(w, item)) < Work(item.h)
  {
    var l, r := LeftItem(w, item), RightItem(w, item);
    AllWorkConcat(if l.prev != l.cur then [l] else [], if r.prev != r.cur then [r] else []);
    assert [l][1..] == [] && [r][1..] == [];
  }

  /** The work list in any order: whatever pair is handled next, the reports come out the same. */
  method Traverse<N(==), V>(w: View<N, V>, root: Item<N>) returns (result: seq<(nat, V, V)>)
    ensures multiset(result) == multiset(Diffs(w, root))
  {
    result := [];
    var pending := [root];
    OneItem(w, root);
    while pending != []
      invariant multiset(result) + multiset(AllDiffs(w, pending)) == multiset(Diffs(w, root))
      decreases AllWork(pending)
    {
      var k :| 0 <= k < |pending|;
      var item := pending[k];
      PickOut(w, pending, k);
      PickWork(pending, k);
      pending := pending[..k] + pending[k + 1..];
      if item.h == 0 {
        result := result + [Report(w, item)];
      } else {
        var more := Yielded(w, item);
        YieldedDiffs(w, item);
        YieldedWork(w, item);
        AllDiffsConcat(w, pending, more);
        AllWorkConcat(pending, more);
        pending := pending + more;
      }
    }
  }

  lemma OneItem<N, V>(w: View<N, V>, item: Item<N>)
    ensures AllDiffs(w, [item]) == Diffs(w, item)
  {
    assert [item][1..] == [];
  }

  /** The differing leaves of two arrays, the first of which is number `base`. */
  ghost function Changed<V>(base: nat, a: seq<V>, b: seq<V>): seq<(nat, V, V)>
    requires |a| == |b|
    decreases |a|
  {
    if a == [] then []
    else (if a[0] != b[0] then [(base, a[0], b[0])] else []) + Changed(base + 1, a[1..], b[1..])
  }

  lemma {:induction false} ChangedConcat<V>(base: nat, a: seq<V>, b: seq<V>, c: seq<V>, d: seq<V>)
    requires |a| == |b| && |c| == |d|
    ensures Changed(base, a + c, b + d) == Changed(base, a, b) + Changed(base + |a|, c, d)
    decreases |a|
  {
    if a == [] {
      assert a + c == c && b + d == d;
    } else {
      assert (a + c)[1..] == a[1..] + c && (b + d)[1..] == b[1..] + d;
      ChangedConcat(base + 1, a[1..], b[1..], c, d);
    }
  }

  lemma {:induction false} ChangedSame<V>(base: nat, a: seq<V>)
    ensures Changed(base, a, a) == []
    decreases |a|
  {
    if a != [] { ChangedSame(base + 1, a[1..]); }
  }

  /** Each differing index is listed once, with its two values, and nothing else is. */
  lemma {:induction false} ChangedIs<V>(base: nat, a: seq<V>, b: seq<V>, i: nat, x: V, y: V)
    requires |a| == |b|
    ensures multiset(Changed(base, a, b))[(i, x, y)]
         == if base <= i < base + |a| && a[i - base] == x && b[i - base] == y && x != y then 1 else 0
    decreases |a|
  {
    if a != [] { ChangedIs(base + 1, a[1..], b[1..], i, x, y); }
  }

  /** Where the leaves of two nodes are equal, so are the leaf nodes. */
  ghost predicate LeavesTell<N, V>(w: View<N, V>, a: N, b: N, h: nat) {
    if h == 0 then w.leaf(a) == w.leaf(b) ==> a == b
    else LeavesTell(w, w.kids(a).0, w.kids(b).0, h - 1) && LeavesTell(w, w.kids(a).1, w.kids(b).1, h - 1)
  }

  /** The number of the first leaf below a node. */
  ghost function FirstLeaf(path: nat, h: nat): nat
    decreases h
  {
    if h == 0 then path else FirstLeaf(2 * path, h - 1)
  }

  lemma {:induction false} NextLeaf(path: nat, h: nat)
    ensures FirstLeaf(path + 1, h) == FirstLeaf(path, h) + Pow2(h)
    decreases h
  {
    if h > 0 {
      NextLeaf(2 * path, h - 1);
      NextLeaf(2 * path + 1, h - 1);
    }
  }

  lemma {:induction false} FirstLeafOfRoot(h: nat)
    ensures FirstLeaf(0, h) == 0
  {
    if h > 0 { FirstLeafOfRoot(h - 1); }
  }

  /** The reports of a traversal are the differing leaves, numbered as in _get_leaves. */
  lemma {:induction false} DiffsAre<N, V>(w: View<N, V>, item: Item<N>)
    requires LeavesTell(w, item.prev, item.cur, item.h) && (item.h > 0 || item.prev != item.cur)
    ensures Diffs(w, item) == Changed(FirstLeaf(item.path, item.h), Contents(w, item.prev, item.h), Contents(w, item.cur, item.h))
    decreases item.h, 0
  {
    if item.h == 0 {
      OneChanged(item.path, w.leaf(item.prev), w.leaf(item.cur));
    } else {
      var l, r := LeftItem(w, item), RightItem(w, item);
      HalfDiffs(w, l);
      HalfDiffs(w, r);
      NextLeaf(2 * item.path, item.h - 1);
      ChangedConcat(FirstLeaf(item.path, item.h), Contents(w, l.prev, l.h), Contents(w, l.cur, l.h),
                    Contents(w, r.prev, r.h), Contents(w, r.cur, r.h));
    }
  }

  lemma OneChanged<V>(base: nat, x: V, y: V)
    requires x != y
    ensures Changed(base, [x], [y]) == [(base, x, y)]
  {
    assert [x][1..] == [] && [y][1..] == [];
  }

  lemma {:induction false} HalfDiffs<N, V>(w: View<N, V>, item: Item<N>)
    requires LeavesTell(w, item.prev, item.cur, item.h)
    ensures (if item.prev != item.cur then Diffs(w, item) else [])
         == Changed(FirstLeaf(item.path, item.h), Contents(w, item.prev, item.h), Contents(w, item.cur, item.h))
    decreases item.h, 1
  {
    if item.prev == item.cur {
      ChangedSame(FirstLeaf(item.path, item.h), Contents(w, item.prev, item.h));
    } else {
      DiffsAre(w, item);
    }
  }

  /** get_diff_between_trees, for roots of the given heights; None is the assertion on the heights. */
  method GetDiffBetweenTrees<N(==), V>(w: View<N, V>, prev: N, prevHeight: nat, cur: N, curHeight: nat)
    returns (r: Option<seq<(nat, V, V)>>)
    requires prevHeight == curHeight ==> LeavesTell(w, prev, cur, prevHeight)
    ensures r.Some? <==> prevHeight == curHeight
    ensures r.Some? && prevHeight > 0 ==>
      multiset(r.value) == multiset(Changed(0, Contents(w, prev, prevHeight), Contents(w, cur, prevHeight)))
    ensures r.Some? && prevHeight == 0 ==> r.value == [(0, w.leaf(prev), w.leaf(cur))]
  {
    if prevHeight != curHeight { return None; }
    var root := Item(0, prev, cur, prevHeight);
    var result := Traverse(w, root);
    if prevHeight > 0 {
      DiffsAre(w, root);
      FirstLeafOfRoot(prevHeight);
    } else {
      OneReport(result, Report(w, root));
    }
    return Some(result);
  }

  lemma OneReport<T>(s: seq<T>, x: T)
    requires multiset(s) == multiset([x])
    ensures s == [x]
  {
    assert |s| == |multiset(s)| == 1;
    assert s[0] in multiset([x]);
  }
}
