/**
 Nodes of a binary tree by number: the root is 1, the children of i are 2i and 2i + 1, and leaf k of a
 tree of height `top` is 2^top + k.
 */
module TreeIndex {
  import opened Common
  import opened PatriciaEncoding
  import opened PatriciaBuild
  import opened EdgePaths

  /** One less than the number of bits of `i`. */
  function Depth(i: nat): nat
    requires i > 0
  {
    if i == 1 then 0 else 1 + Depth(i / 2)
  }

  /** `i` is a node of a tree of height `top`. */
  predicate InTree(top: nat, i: nat) {
    i > 0 && Depth(i) <= top
  }

  /** get_node_height */
  function Height(top: nat, i: nat): (h: nat)
    requires InTree(top, i)
    ensures h == top - Depth(i)
    decreases i
  {
    if i == 1 then top else Height(top, i / 2) - 1
  }

  function Child(i: nat, right: bool): nat {
    2 * i + (if right then 1 else 0)
  }

  /** The leaves below node `i`. */
  ghost function Block(leaves: seq<int>, top: nat, i: nat): (r: seq<int>)
    requires InTree(top, i) && |leaves| == Pow2(top)
    ensures |r| == Pow2(Height(top, i))
    decreases i
  {
    if i == 1 then leaves else Half(Block(leaves, top, i / 2), Height(top, i / 2), i % 2 == 1)
  }

  lemma {:induction false} ChildInTree(top: nat, i: nat, right: bool)
    requires InTree(top, i) && Height(top, i) > 0
    ensures InTree(top, Child(i, right)) && Height(top, Child(i, right)) == Height(top, i) - 1
  {}

  lemma {:induction false} ChildBlock(leaves: seq<int>, top: nat, i: nat, right: bool)
    requires InTree(top, i) && Height(top, i) > 0 && |leaves| == Pow2(top)
    ensures InTree(top, Child(i, right)) && Height(top, Child(i, right)) == Height(top, i) - 1
    ensures Block(leaves, top, Child(i, right)) == Half(Block(leaves, top, i), Height(top, i), right)
  {
    assert Child(i, right) / 2 == i && (Child(i, right) % 2 == 1 <==> right);
  }

  lemma {:induction false} ParentBlock(leaves: seq<int>, top: nat, i: nat)
    requires i > 1 && InTree(top, i) && |leaves| == Pow2(top)
    ensures InTree(top, i / 2) && Height(top, i / 2) == Height(top, i) + 1
    ensures Block(leaves, top, i) == Half(Block(leaves, top, i / 2), Height(top, i) + 1, i % 2 == 1)
  {}

  // ---------------------------------------------------------------------------
  // Down an edge
  // ---------------------------------------------------------------------------

  /** The node at the end of an edge, step by step. */
  function Descend(i: nat, length: nat, path: nat): nat
    decreases length
  {
    if length == 0 then i else Descend(Child(i, GoesRight(path, length)), length - 1, PathBelow(path, length))
  }

  /** It is `(i << length) | path`. */
  lemma {:induction false} DescendIs(i: nat, length: nat, path: nat)
    requires path < Pow2(length)
    ensures Descend(i, length, path) == Shl(i, length) + path
    decreases length
  {
    if length > 0 {
      FirstStep(path, length);
      var right := GoesRight(path, length);
      DescendIs(Child(i, right), length - 1, PathBelow(path, length));
      ShlIs(i, length);
      ShlIs(Child(i, right), length - 1);
      ChildTimes(i, Pow2(length - 1));
    }
  }

  lemma {:induction false} ChildTimes(i: nat, m: nat)
    ensures (2 * i) * m == i * (2 * m) && (2 * i + 1) * m == i * (2 * m) + m
  {}

  /** Two edges in a row are one edge. */
  lemma {:induction false} DescendTwice(i: nat, prefix: nat, k: nat, suffix: nat, d: nat, total: nat, whole: nat)
    requires total == k + d && TwoParts(whole, prefix, k, suffix, d)
    ensures Descend(Descend(i, k, prefix), d, suffix) == Descend(i, total, whole)
    decreases k
  {
    if k == 0 {
      NoPrefix(whole, prefix, suffix, d);
    } else {
      PartsStep(whole, total, prefix, k, suffix, d);
      DescendTwice(Child(i, GoesRight(prefix, k)), PathBelow(prefix, k), k - 1, suffix, d, total - 1, PathBelow(whole, total));
    }
  }

  lemma {:induction false} DescendInTree(top: nat, i: nat, length: nat, path: nat)
    requires InTree(top, i) && length <= Height(top, i)
    ensures InTree(top, Descend(i, length, path)) && Height(top, Descend(i, length, path)) == Height(top, i) - length
    decreases length
  {
    if length > 0 {
      ChildInTree(top, i, GoesRight(path, length));
      DescendInTree(top, Child(i, GoesRight(path, length)), length - 1, PathBelow(path, length));
    }
  }

  lemma {:induction false} DescendBlock(leaves: seq<int>, top: nat, i: nat, length: nat, path: nat)
    requires InTree(top, i) && length <= Height(top, i) && |leaves| == Pow2(top)
    ensures var j := Descend(i, length, path);
      && InTree(top, j) && Height(top, j) == Height(top, i) - length
      && Block(leaves, top, j) == Bottom(Block(leaves, top, i), Height(top, i), length, path)
    decreases length
  {
    DescendInTree(top, i, length, path);
    if length > 0 {
      var right, rest, h := GoesRight(path, length), PathBelow(path, length), Height(top, i);
      SoleUp(Block(leaves, top, i), h, length, path, right, rest);
      ChildBlock(leaves, top, i, right);
      DescendBlock(leaves, top, Child(i, right), length - 1, rest);
    }
  }

  // ---------------------------------------------------------------------------
  // Leaves below a node
  // ---------------------------------------------------------------------------

  /** Leaf `x` is below node `i` (or is it). */
  ghost predicate IsBelow(top: nat, x: nat, i: nat)
    requires InTree(top, i)
  {
    Above(x, Height(top, i)) == i
  }

  lemma {:induction false} BelowChild(top: nat, x: nat, i: nat, right: bool)
    requires InTree(top, i) && Height(top, i) > 0
    ensures InTree(top, Child(i, right))
    ensures IsBelow(top, x, Child(i, right)) ==> IsBelow(top, x, i)
    ensures IsBelow(top, x, i) ==> IsBelow(top, x, Child(i, right)) || IsBelow(top, x, Child(i, !right))
    ensures !(IsBelow(top, x, Child(i, right)) && IsBelow(top, x, Child(i, !right)))
  {
    ChildInTree(top, i, right);
    ChildInTree(top, i, !right);
    var a := Above(x, Height(top, i) - 1);
    assert Above(x, Height(top, i)) == a / 2;
  }

  lemma {:induction false} DescendBelow(top: nat, x: nat, i: nat, length: nat, path: nat)
    requires InTree(top, i) && length <= Height(top, i)
    ensures InTree(top, Descend(i, length, path)) && Height(top, Descend(i, length, path)) == Height(top, i) - length
    ensures IsBelow(top, x, Descend(i, length, path)) ==> IsBelow(top, x, i)
    decreases length
  {
    if length > 0 {
      var right := GoesRight(path, length);
      ChildInTree(top, i, right);
      DescendBelow(top, x, Child(i, right), length - 1, PathBelow(path, length));
      BelowChild(top, x, i, right);
    }
  }

  // ---------------------------------------------------------------------------
  // Two trees that differ in some leaves
  // ---------------------------------------------------------------------------

  ghost predicate LeafIs(before: seq<int>, after: seq<int>, top: nat, upd: map<nat, int>, x: nat)
    requires |before| == |after| == Pow2(top)
  {
    InTree(top, x) && Height(top, x) == 0 ==>
      Block(after, top, x) == if x in upd then [upd[x]] else Block(before, top, x)
  }

  /** `after` is `before` with the leaves `upd` set. */
  ghost predicate Differs(before: seq<int>, after: seq<int>, top: nat, upd: map<nat, int>) {
    && |before| == |after| == Pow2(top)
    && forall x: nat {:trigger LeafIs(before, after, top, upd, x)} :: LeafIs(before, after, top, upd, x)
  }

  /** Some leaf below `i` is set. */
  ghost predicate Touched(top: nat, upd: map<nat, int>, i: nat)
    requires InTree(top, i)
  {
    exists x :: x in upd && IsBelow(top, x, i)
  }

  lemma {:induction false} TouchedChild(top: nat, upd: map<nat, int>, i: nat, right: bool)
    requires InTree(top, i) && Height(top, i) > 0
    ensures InTree(top, Child(i, right))
    ensures Touched(top, upd, Child(i, right)) ==> Touched(top, upd, i)
  {
    ChildInTree(top, i, right);
    if Touched(top, upd, Child(i, right)) {
      var x :| x in upd && IsBelow(top, x, Child(i, right));
      BelowChild(top, x, i, right);
    }
  }

  lemma {:induction false} UntouchedBlock(before: seq<int>, after: seq<int>, top: nat, upd: map<nat, int>, i: nat)
    requires Differs(before, after, top, upd) && InTree(top, i) && !Touched(top, upd, i)
    ensures Block(after, top, i) == Block(before, top, i)
    decreases Height(top, i)
  {
    if Height(top, i) == 0 {
      assert LeafIs(before, after, top, upd, i);
    } else {
      TouchedChild(top, upd, i, false);
      TouchedChild(top, upd, i, true);
      ChildBlock(before, top, i, false);
      ChildBlock(after, top, i, false);
      ChildBlock(before, top, i, true);
      ChildBlock(after, top, i, true);
      UntouchedBlock(before, after, top, upd, Child(i, false));
      UntouchedBlock(before, after, top, upd, Child(i, true));
      SameHalves(Block(before, top, i), Block(after, top, i), Height(top, i));
    }
  }

  lemma {:induction false} SameHalves(a: seq<int>, b: seq<int>, h: nat)
    requires h > 0 && |a| == |b| == Pow2(h) && Half(a, h, false) == Half(b, h, false) && Half(a, h, true) == Half(b, h, true)
    ensures a == b
  {
    assert a == LeftHalf(a, h) + RightHalf(a, h) && b == LeftHalf(b, h) + RightHalf(b, h);
  }

  /** Where all set leaves are below the end of an edge, the rest stays empty. */
  lemma {:induction false} SoleStays(before: seq<int>, after: seq<int>, top: nat, upd: map<nat, int>, i: nat, length: nat, path: nat)
    requires Differs(before, after, top, upd) && InTree(top, i) && length <= Height(top, i)
    requires Sole(Block(before, top, i), Height(top, i), length, path)
    requires InTree(top, Descend(i, length, path))
    requires forall x :: x in upd && IsBelow(top, x, i) ==> IsBelow(top, x, Descend(i, length, path))
    ensures Sole(Block(after, top, i), Height(top, i), length, path)
    decreases length
  {
    if length > 0 {
      var right, rest := GoesRight(path, length), PathBelow(path, length);
      OffPath(top, upd, i, length, path);
      BlockSole(before, top, i, length, path, right, rest, Child(i, right));
      OtherSide(before, after, top, upd, i, !right);
      SoleStays(before, after, top, upd, Child(i, right), length - 1, rest);
      BlockSole(after, top, i, length, path, right, rest, Child(i, right));
    }
  }

  lemma {:induction false} BlockSole(leaves: seq<int>, top: nat, i: nat, length: nat, path: nat, right: bool, rest: nat, c: nat)
    requires InTree(top, i) && 0 < length <= Height(top, i) && |leaves| == Pow2(top)
    requires right == GoesRight(path, length) && rest == PathBelow(path, length) && c == Child(i, right)
    ensures InTree(top, c) && Height(top, c) == Height(top, i) - 1
    ensures Sole(Block(leaves, top, i), Height(top, i), length, path) <==>
      AllZero(Half(Block(leaves, top, i), Height(top, i), !right)) && Sole(Block(leaves, top, c), Height(top, c), length - 1, rest)
  {
    SoleUp(Block(leaves, top, i), Height(top, i), length, path, right, rest);
    ChildBlock(leaves, top, i, right);
  }

  /** The side off the path, where nothing is set, stays empty. */
  lemma {:induction false} OtherSide(before: seq<int>, after: seq<int>, top: nat, upd: map<nat, int>, i: nat, right: bool)
    requires Differs(before, after, top, upd) && InTree(top, i) && Height(top, i) > 0
    requires InTree(top, Child(i, right)) && !Touched(top, upd, Child(i, right)) && AllZero(Half(Block(before, top, i), Height(top, i), right))
    ensures AllZero(Half(Block(after, top, i), Height(top, i), right))
  {
    ChildBlock(before, top, i, right);
    ChildBlock(after, top, i, right);
    UntouchedBlock(before, after, top, upd, Child(i, right));
  }

  lemma {:induction false} OffPath(top: nat, upd: map<nat, int>, i: nat, length: nat, path: nat)
    requires InTree(top, i) && 0 < length <= Height(top, i) && InTree(top, Descend(i, length, path))
    requires forall x :: x in upd && IsBelow(top, x, i) ==> IsBelow(top, x, Descend(i, length, path))
    ensures InTree(top, Child(i, GoesRight(path, length))) && InTree(top, Child(i, !GoesRight(path, length)))
    ensures !Touched(top, upd, Child(i, !GoesRight(path, length)))
    ensures forall x :: x in upd && IsBelow(top, x, Child(i, GoesRight(path, length))) ==> IsBelow(top, x, Descend(i, length, path))
  {
    var right := GoesRight(path, length);
    ChildInTree(top, i, right);
    ChildInTree(top, i, !right);
    forall x | x in upd && IsBelow(top, x, i)
      ensures IsBelow(top, x, Child(i, right)) && !IsBelow(top, x, Child(i, !right))
    {
      DescendBelow(top, x, Child(i, right), length - 1, PathBelow(path, length));
      BelowChild(top, x, i, right);
    }
    forall x | x in upd && IsBelow(top, x, Child(i, right)) ensures IsBelow(top, x, i) { BelowChild(top, x, i, right); }
    forall x | x in upd ensures !IsBelow(top, x, Child(i, !right)) { BelowChild(top, x, i, !right); }
  }

  // ---------------------------------------------------------------------------
  // Leaves
  // ---------------------------------------------------------------------------

  lemma {:induction false} DepthRange(i: nat)
    requires i > 0
    ensures Pow2(Depth(i)) <= i < 2 * Pow2(Depth(i))
  {
    if i > 1 { DepthRange(i / 2); }
  }

  lemma {:induction false} DepthOf(i: nat, d: nat)
    requires Pow2(d) <= i < 2 * Pow2(d)
    ensures Depth(i) == d
  {
    if d > 0 { DepthOf(i / 2, d - 1); }
  }

  /** Where the leaves below `i` begin. */
  function Offset(top: nat, i: nat): nat
    requires InTree(top, i)
    decreases i
  {
    if i == 1 then 0
    else Offset(top, i / 2) + (if i % 2 == 1 then Pow2(Height(top, i)) else 0)
  }

  lemma {:induction false} BlockIsSlice(leaves: seq<int>, top: nat, i: nat)
    requires InTree(top, i) && |leaves| == Pow2(top)
    ensures Offset(top, i) + Pow2(Height(top, i)) <= |leaves|
    ensures Block(leaves, top, i) == leaves[Offset(top, i)..Offset(top, i) + Pow2(Height(top, i))]
    decreases i
  {
    if i > 1 {
      BlockIsSlice(leaves, top, i / 2);
      SliceOfSlice(leaves, Offset(top, i / 2), Pow2(Height(top, i)));
    }
  }

  lemma {:induction false} SliceOfSlice(s: seq<int>, o: nat, m: nat)
    requires o + 2 * m <= |s|
    ensures s[o..o + 2 * m][..m] == s[o..o + m] && s[o..o + 2 * m][m..] == s[o + m..o + m + m]
  {}

  lemma {:induction false} OffsetIs(top: nat, i: nat)
    requires InTree(top, i)
    ensures Pow2(top) + Offset(top, i) == i * Pow2(Height(top, i))
    decreases i
  {
    if i > 1 {
      OffsetIs(top, i / 2);
      assert i == 2 * (i / 2) + i % 2;
      ChildTimes(i / 2, Pow2(Height(top, i)));
    }
  }

  /** Leaf `k` is node 2^top + k. */
  lemma {:induction false} LeafBlock(leaves: seq<int>, top: nat, x: nat)
    requires InTree(top, x) && Height(top, x) == 0 && |leaves| == Pow2(top)
    ensures Pow2(top) <= x < 2 * Pow2(top) && Block(leaves, top, x) == [leaves[x - Pow2(top)]]
  {
    DepthRange(x);
    BlockIsSlice(leaves, top, x);
    OffsetIs(top, x);
  }
}
