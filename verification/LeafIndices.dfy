/**
 Sorted lists of leaf numbers, and the bit arithmetic that splits them
 (src/starkware/starkware_utils/commitment_tree/patricia_tree/fast_patricia_update.py, traversal utilities).
 */
module LeafIndices {
  import opened Common
  import opened EdgePaths
  import opened TreeIndex

  ghost predicate Ascending(s: seq<nat>) {
    forall a, b :: 0 <= a < b < |s| ==> s[a] < s[b]
  }

  /** The list of the leaves set below node `i`. */
  ghost predicate Lists(s: seq<nat>, top: nat, upd: map<nat, int>, i: nat)
    requires InTree(top, i)
  {
    Ascending(s) && forall x: nat :: x in s <==> x in upd && IsBelow(top, x, i)
  }

  lemma {:induction false} ListsTouched(s: seq<nat>, top: nat, upd: map<nat, int>, i: nat)
    requires InTree(top, i) && Lists(s, top, upd, i)
    ensures Touched(top, upd, i) <==> s != []
  {
    if s != [] { assert s[0] in s; }
  }

  /** A leaf lists itself or nothing. */
  lemma {:induction false} LeafList(s: seq<nat>, top: nat, upd: map<nat, int>, i: nat)
    requires InTree(top, i) && Height(top, i) == 0 && Lists(s, top, upd, i) && s != []
    ensures s == [i] && i in upd
  {
    forall k | 0 <= k < |s| ensures s[k] == i { assert s[k] in s; }
    assert s[0] in s;
    OneOnly(s, i);
  }

  lemma {:induction false} OneOnly(s: seq<nat>, i: nat)
    requires Ascending(s) && s != [] && s[0] == i && s[|s| - 1] == i
    ensures s == [i]
  {}

  // ---------------------------------------------------------------------------
  // Splitting
  // ---------------------------------------------------------------------------

  /** bisect_left on an ascending list. */
  function Bisect(s: seq<nat>, x: nat): (r: nat)
    ensures r <= |s|
  {
    if s == [] || s[0] >= x then 0 else 1 + Bisect(s[1..], x)
  }

  lemma {:induction false} BisectIs(s: seq<nat>, x: nat)
    requires Ascending(s)
    ensures forall k :: 0 <= k < Bisect(s, x) ==> s[k] < x
    ensures forall k :: Bisect(s, x) <= k < |s| ==> s[k] >= x
  {
    if s != [] && s[0] < x {
      BisectIs(s[1..], x);
      assert forall k :: 1 <= k < |s| ==> s[k] == s[1..][k - 1];
    }
  }

  lemma {:induction false} BisectGrows(s: seq<nat>, lo: nat, hi: nat)
    requires lo <= hi
    ensures Bisect(s, lo) <= Bisect(s, hi)
  {
    if s != [] && s[0] < lo { BisectGrows(s[1..], lo, hi); }
  }

  /** split_leaves */
  function SplitLeaves(i: nat, h: nat, s: seq<nat>): (seq<nat>, seq<nat>)
    requires h > 0
  {
    var mid := Bisect(s, Shl(2 * i + 1, h - 1));
    (s[..mid], s[mid..])
  }

  /** The leaves below a node are a range of numbers. */
  lemma {:induction false} BelowRange(top: nat, x: nat, i: nat)
    requires InTree(top, i)
    ensures IsBelow(top, x, i) <==> Shl(i, Height(top, i)) <= x < Shl(i, Height(top, i)) + Pow2(Height(top, i))
  {
    AboveIsDiv(x, Height(top, i));
    ShlIs(i, Height(top, i));
    QuotientRange(x, i, Pow2(Height(top, i)));
  }

  lemma {:induction false} QuotientRange(x: nat, i: nat, m: nat)
    requires m > 0
    ensures x / m == i <==> i * m <= x < i * m + m
  {
    if i * m <= x < i * m + m { DivUnique(x, m, i, x - i * m); }
    if x / m == i { Recompose(x, m); }
  }

  lemma {:induction false} PartAscends(s: seq<nat>, a: nat, b: nat)
    requires Ascending(s) && a <= b <= |s|
    ensures Ascending(s[a..b])
    ensures forall x :: x in s[a..b] <==> exists k :: a <= k < b && s[k] == x
  {
    forall x | x in s[a..b] ensures exists k :: a <= k < b && s[k] == x {
      var j :| 0 <= j < b - a && s[a..b][j] == x;
      assert s[a + j] == x;
    }
    forall k | a <= k < b ensures s[k] in s[a..b] { assert s[a..b][k - a] == s[k]; }
  }

  /** The part of a list between two numbers. */
  lemma {:induction false} PartBetween(s: seq<nat>, lo: nat, hi: nat)
    requires Ascending(s) && lo <= hi
    ensures Bisect(s, lo) <= Bisect(s, hi)
    ensures var part := s[Bisect(s, lo)..Bisect(s, hi)];
      Ascending(part) && forall x: nat :: x in part <==> x in s && lo <= x < hi
  {
    BisectIs(s, lo);
    BisectIs(s, hi);
    BisectGrows(s, lo, hi);
    var a, b := Bisect(s, lo), Bisect(s, hi);
    PartAscends(s, a, b);
    forall x: nat | x in s && lo <= x < hi ensures x in s[a..b] {
      var k :| 0 <= k < |s| && s[k] == x;
      assert a <= k < b;
    }
  }

  lemma {:induction false} CutAt(s: seq<nat>, cut: nat)
    requires Ascending(s)
    ensures var mid := Bisect(s, cut);
      && Ascending(s[..mid]) && Ascending(s[mid..])
      && (forall x: nat :: x in s[..mid] <==> x in s && x < cut)
      && (forall x: nat :: x in s[mid..] <==> x in s && x >= cut)
  {
    var mid := Bisect(s, cut);
    BisectIs(s, cut);
    forall x: nat ensures x in s <==> x in s[..mid] || x in s[mid..] { InParts(s, mid, x); }
    forall x: nat | x in s[..mid] ensures x < cut { var k :| 0 <= k < mid && s[..mid][k] == x; }
    forall x: nat | x in s[mid..] ensures x >= cut { var k :| 0 <= k < |s| - mid && s[mid..][k] == x; }
  }

  /** Cut at the first leaf of the right child, a list gives the lists of the two children. */
  lemma {:induction false} SplitIs(s: seq<nat>, top: nat, upd: map<nat, int>, i: nat)
    requires InTree(top, i) && Height(top, i) > 0 && Lists(s, top, upd, i)
    ensures InTree(top, Child(i, false)) && InTree(top, Child(i, true))
    ensures var (l, r) := SplitLeaves(i, Height(top, i), s);
      Lists(l, top, upd, Child(i, false)) && Lists(r, top, upd, Child(i, true))
  {
    var cut := Shl(2 * i + 1, Height(top, i) - 1);
    ChildInTree(top, i, false);
    ChildInTree(top, i, true);
    CutAt(s, cut);
    forall x: nat
      ensures IsBelow(top, x, Child(i, false)) <==> IsBelow(top, x, i) && x < cut
      ensures IsBelow(top, x, Child(i, true)) <==> IsBelow(top, x, i) && x >= cut
    {
      SideOf(top, x, i, cut);
    }
  }

  lemma {:induction false} SplitJoins(i: nat, h: nat, s: seq<nat>)
    requires h > 0
    ensures SplitLeaves(i, h, s).0 + SplitLeaves(i, h, s).1 == s
  {}

  lemma {:induction false} InParts(s: seq<nat>, mid: nat, x: nat)
    requires mid <= |s|
    ensures x in s <==> x in s[..mid] || x in s[mid..]
  {
    assert s == s[..mid] + s[mid..];
  }

  lemma {:induction false} ChildRanges(i: nat, k: nat)
    ensures Shl(2 * i + 1, k) == Shl(2 * i, k) + Pow2(k)
  {
    ShlNext(2 * i, k);
  }

  lemma {:induction false} SideOf(top: nat, x: nat, i: nat, cut: nat)
    requires InTree(top, i) && Height(top, i) > 0 && cut == Shl(2 * i + 1, Height(top, i) - 1)
    ensures InTree(top, Child(i, false)) && InTree(top, Child(i, true))
    ensures IsBelow(top, x, Child(i, false)) <==> IsBelow(top, x, i) && x < cut
    ensures IsBelow(top, x, Child(i, true)) <==> IsBelow(top, x, i) && x >= cut
  {
    ChildInTree(top, i, false);
    ChildInTree(top, i, true);
    BelowChild(top, x, i, false);
    BelowRange(top, x, Child(i, false));
    BelowRange(top, x, Child(i, true));
    ChildRanges(i, Height(top, i) - 1);
  }

  lemma {:induction false} ShlNext(x: nat, k: nat)
    ensures Shl(x + 1, k) == Shl(x, k) + Pow2(k)
  {
    if k > 0 { ShlNext(x, k - 1); }
  }

  /** bottom_leaves */
  function BottomLeaves(s: seq<nat>, bottom: nat, height: nat): seq<nat> {
    var first := Shl(bottom, height);
    var a, b := Bisect(s, first), Bisect(s, first + Pow2(height));
    if a <= b then s[a..b] else []
  }

  lemma {:induction false} BottomLeavesAre(s: seq<nat>, top: nat, upd: map<nat, int>, i: nat, length: nat, path: nat)
    requires InTree(top, i) && length <= Height(top, i) && Lists(s, top, upd, i) && InTree(top, Descend(i, length, path))
    requires Height(top, Descend(i, length, path)) == Height(top, i) - length
    ensures var b := Descend(i, length, path); Lists(BottomLeaves(s, b, Height(top, b)), top, upd, b)
  {
    var b := Descend(i, length, path);
    var first := Shl(b, Height(top, b));
    PartBetween(s, first, first + Pow2(Height(top, b)));
    forall x: nat ensures x in BottomLeaves(s, b, Height(top, b)) <==> x in upd && IsBelow(top, x, b) {
      BelowRange(top, x, b);
      DescendBelow(top, x, i, length, path);
    }
  }

  // ---------------------------------------------------------------------------
  // Bits
  // ---------------------------------------------------------------------------

  /** Bitwise exclusive or. */
  function Xor(a: nat, b: nat): nat
    decreases a + b
  {
    if a == 0 && b == 0 then 0 else 2 * Xor(a / 2, b / 2) + (if a % 2 == b % 2 then 0 else 1)
  }

  function BitLength(x: nat): nat {
    if x == 0 then 0 else 1 + BitLength(x / 2)
  }

  lemma {:induction false} XorZero(a: nat, b: nat)
    ensures Xor(a, b) == 0 <==> a == b
    decreases a + b
  {
    if a > 0 || b > 0 { XorZero(a / 2, b / 2); }
  }

  /** The bits that differ are the last ones exactly up to where the numbers agree. */
  lemma {:induction false} DifferentBits(a: nat, b: nat, k: nat)
    ensures BitLength(Xor(a, b)) <= k <==> a / Pow2(k) == b / Pow2(k)
    decreases k
  {
    if k == 0 {
      XorZero(a, b);
    } else {
      DifferentBits(a / 2, b / 2, k - 1);
      HalfFirst(a, Pow2(k - 1));
      HalfFirst(b, Pow2(k - 1));
      assert Xor(a, b) / 2 == Xor(a / 2, b / 2);
    }
  }

  /** Bitwise or. */
  function Or(a: nat, b: nat): nat
    decreases a + b
  {
    if a == 0 && b == 0 then 0 else 2 * Or(a / 2, b / 2) + (if a % 2 == 1 || b % 2 == 1 then 1 else 0)
  }

  lemma {:induction false} OrZero(b: nat)
    ensures Or(0, b) == b
  {
    if b > 0 { OrZero(b / 2); }
  }

  /** With one bit: it is added, unless it is there already. */
  lemma {:induction false} OrBit(h: nat, a: nat)
    requires a < 2 * Pow2(h)
    ensures Or(Pow2(h), a) == Pow2(h) + a % Pow2(h)
  {
    if h == 0 {
      OrZero(a / 2);
    } else {
      OrBit(h - 1, a / 2);
      HalfFirst(a, Pow2(h - 1));
    }
  }

  // ---------------------------------------------------------------------------
  // All leaves of a tree
  // ---------------------------------------------------------------------------

  lemma {:induction false} LeafBelowRoot(top: nat, x: nat)
    requires InTree(top, x) && Height(top, x) == 0
    ensures IsBelow(top, x, 1)
  {
    DepthRange(x);
    AboveIsDiv(x, top);
    DivUnique(x, Pow2(top), 1, x - Pow2(top));
  }

  lemma {:induction false} SmallestExists(keys: set<nat>) returns (x: nat)
    requires keys != {}
    ensures x in keys && forall y :: y in keys ==> x <= y
    decreases |keys|
  {
    x :| x in keys;
    var rest := keys - {x};
    if rest != {} {
      var z := SmallestExists(rest);
      assert forall y :: y in keys ==> y == x || y in rest;
      if z < x { x := z; }
    } else {
      assert forall y :: y in keys ==> y == x || y in rest;
    }
  }

  /** sorted(keys) */
  method SortedKeys(keys: set<nat>) returns (s: seq<nat>)
    ensures Ascending(s) && forall x: nat :: x in s <==> x in keys
  {
    s := [];
    var left := keys;
    while left != {}
      invariant Ascending(s) && left <= keys
      invariant forall x: nat :: x in s <==> x in keys && x !in left
      invariant forall x, y :: x in s && y in left ==> x < y
      decreases |left|
    {
      ghost var m := SmallestExists(left);
      var x :| x in left && forall y :: y in left ==> x <= y;
      forall k | 0 <= k < |s| ensures s[k] < x { assert s[k] in s; }
      s := s + [x];
      left := left - {x};
    }
  }

  // ---------------------------------------------------------------------------
  // The lowest common ancestor
  // ---------------------------------------------------------------------------

  /** The height of the lowest common ancestor of the leaves. */
  function LcaHeight(s: seq<nat>): nat
    requires s != []
  {
    BitLength(Xor(s[0], s[|s| - 1]))
  }

  /** Whether leaf `x` is on the right side of the node of height `h` above it. */
  predicate RightBit(h: nat, x: nat)
    requires h > 0
  {
    (x / Pow2(h - 1)) % 2 == 1
  }

  /** has_leaves_on_both_sides, for a node of height `h` */
  predicate OnBothSides(h: nat, s: seq<nat>)
    requires h > 0 && s != []
  {
    RightBit(h, s[0]) != RightBit(h, s[|s| - 1])
  }

  /** has_leaves_on_child_side */
  predicate OnSide(h: nat, right: bool, s: seq<nat>)
    requires h > 0 && s != []
  {
    OnBothSides(h, s) || RightBit(h, s[0]) == right
  }

  lemma {:induction false} SideBit(top: nat, x: nat, i: nat)
    requires InTree(top, i) && Height(top, i) > 0 && IsBelow(top, x, i)
    ensures InTree(top, Child(i, true)) && InTree(top, Child(i, false))
    ensures IsBelow(top, x, Child(i, true)) <==> RightBit(Height(top, i), x)
    ensures IsBelow(top, x, Child(i, false)) <==> !RightBit(Height(top, i), x)
    ensures x / Pow2(Height(top, i) - 1) == Child(i, RightBit(Height(top, i), x))
  {
    ChildInTree(top, i, true);
    ChildInTree(top, i, false);
    var q := Above(x, Height(top, i) - 1);
    AboveIsDiv(x, Height(top, i) - 1);
    Parity(q, i);
  }

  lemma {:induction false} Parity(q: int, i: nat)
    requires q / 2 == i
    ensures q == Child(i, q % 2 == 1)
  {}

  lemma {:induction false} ListEnds(s: seq<nat>, top: nat, upd: map<nat, int>, i: nat)
    requires InTree(top, i) && Lists(s, top, upd, i) && s != []
    ensures IsBelow(top, s[0], i) && IsBelow(top, s[|s| - 1], i)
    ensures forall x :: x in s ==> s[0] <= x <= s[|s| - 1]
  {
    assert s[0] in s && s[|s| - 1] in s;
    forall x | x in s ensures s[0] <= x <= s[|s| - 1] { var k :| 0 <= k < |s| && s[k] == x; }
  }

  lemma {:induction false} QuotientMonotone(a: nat, b: nat, m: nat)
    requires a <= b && m > 0
    ensures a / m <= b / m
  {
    var q, r := a / m, b / m;
    assert a == q * m + a % m && b == r * m + b % m;
    PathTimes(r, 1, m);
    if q > r { TimesMonotone(r + 1, q, m); }
  }

  /** Leaves that agree above height `k` at both ends are all below the same node there. */
  lemma {:induction false} BetweenEnds(s: seq<nat>, top: nat, upd: map<nat, int>, i: nat, m: nat, x: nat)
    requires InTree(top, i) && Lists(s, top, upd, i) && s != [] && m > 0 && x in s
    requires s[0] / m == s[|s| - 1] / m
    ensures x / m == s[0] / m
  {
    ListEnds(s, top, upd, i);
    QuotientMonotone(s[0], x, m);
    QuotientMonotone(x, s[|s| - 1], m);
  }

  lemma {:induction false} LcaInside(s: seq<nat>, top: nat, upd: map<nat, int>, i: nat)
    requires InTree(top, i) && Lists(s, top, upd, i) && s != []
    ensures LcaHeight(s) <= Height(top, i)
    ensures s[0] / Pow2(LcaHeight(s)) == s[|s| - 1] / Pow2(LcaHeight(s))
    ensures s[0] / Pow2(Height(top, i)) == i
    ensures Height(top, i) > 0 && !OnBothSides(Height(top, i), s) ==> LcaHeight(s) < Height(top, i)
  {
    var h, first, last := Height(top, i), s[0], s[|s| - 1];
    ListEnds(s, top, upd, i);
    AboveIsDiv(first, h);
    AboveIsDiv(last, h);
    DifferentBits(first, last, h);
    DifferentBits(first, last, LcaHeight(s));
    if h > 0 && !OnBothSides(h, s) {
      SideBit(top, first, i);
      SideBit(top, last, i);
      DifferentBits(first, last, h - 1);
    }
  }

  /** get_path_to_lca */
  function PathToLca(i: nat, h: nat, s: seq<nat>): (nat, int)
    requires s != [] && LcaHeight(s) <= h
  {
    (h - LcaHeight(s), (s[0] - i * Pow2(h)) / Pow2(LcaHeight(s)))
  }

  lemma {:induction false} PathFrom(x: nat, i: nat, a: nat, b: nat)
    requires x / Pow2(a + b) == i
    ensures var path := (x - i * Pow2(a + b)) / Pow2(b);
      0 <= path < Pow2(a) && i * Pow2(a) + path == x / Pow2(b)
  {
    var m, n := Pow2(a), Pow2(b);
    Pow2Add(a, b);
    var rest := x % (m * n);
    assert x == i * (m * n) + rest;
    QuotientBelow(rest, n, m);
    assert i * m * n == i * (m * n);
    SplitQuotient(x, i * m, rest, n, m);
  }

  /** All leaves of the list are below the node that the path leads to. */
  lemma {:induction false} LcaIs(s: seq<nat>, top: nat, upd: map<nat, int>, i: nat)
    requires InTree(top, i) && Lists(s, top, upd, i) && s != []
    ensures LcaHeight(s) <= Height(top, i)
    ensures var (length, path) := PathToLca(i, Height(top, i), s);
      && length <= Height(top, i) && 0 <= path < Pow2(length)
      && InTree(top, Descend(i, length, path)) && Height(top, Descend(i, length, path)) == Height(top, i) - length
      && (forall x :: x in s ==> IsBelow(top, x, Descend(i, length, path)))
      && (Height(top, i) > 0 && !OnBothSides(Height(top, i), s) ==> length > 0)
  {
    LcaInside(s, top, upd, i);
    var (length, path) := PathToLca(i, Height(top, i), s);
    PathFrom(s[0], i, length, LcaHeight(s));
    DescendIs(i, length, path);
    ShlIs(i, length);
    DescendBelow(top, 0, i, length, path);
    forall x | x in s ensures IsBelow(top, x, Descend(i, length, path)) {
      BetweenEnds(s, top, upd, i, Pow2(LcaHeight(s)), x);
      AboveIsDiv(x, LcaHeight(s));
    }
  }

  // ---------------------------------------------------------------------------
  // The common part of an edge and the path to the leaves
  // ---------------------------------------------------------------------------

  /** `path` of `a` steps, cut or filled up with zeros to `length` steps. */
  function Align(path: nat, a: nat, length: nat): nat {
    if a > length then path / Pow2(a - length) else path * Pow2(length - a)
  }

  function Max(a: int, b: int): int {
    if a > b then a else b
  }

  /** edge_suffix_length: what is left of an edge after the part it shares with the path to the leaves. */
  function SuffixLength(path: nat, a: nat, edgePath: nat, length: nat): int {
    Max(BitLength(Xor(Align(path, a, length), edgePath)), length - a)
  }

  lemma {:induction false} AboveAbove(x: int, a: nat, b: nat)
    ensures Above(Above(x, a), b) == Above(x, a + b)
  {
    if b > 0 { AboveAbove(x, a, b - 1); }
  }

  lemma {:induction false} DivTwice(x: nat, a: nat, b: nat)
    ensures x / Pow2(a) / Pow2(b) == x / Pow2(a + b)
  {
    AboveIsDiv(x, a);
    AboveIsDiv(x / Pow2(a), b);
    AboveIsDiv(x, a + b);
    AboveAbove(x, a, b);
  }

  lemma {:induction false} TimesThenDiv(x: nat, a: nat, b: nat)
    requires a <= b
    ensures x * Pow2(a) / Pow2(b) == x / Pow2(b - a)
  {
    DivUnique(x * Pow2(a), Pow2(a), x, 0);
    DivTwice(x * Pow2(a), a, b - a);
  }

  /** The aligned path without its last `k` steps. */
  lemma {:induction false} AlignShift(path: nat, a: nat, length: nat, k: nat)
    requires k <= length && length - k <= a
    ensures Align(path, a, length) / Pow2(k) == path / Pow2(a - (length - k))
  {
    if a > length { DivTwice(path, a - length, k); } else { TimesThenDiv(path, length - a, k); }
  }

  lemma {:induction false} SmallQuotient(x: nat, k: nat)
    requires x < Pow2(k)
    ensures x / Pow2(k) == 0
  {
    DivUnique(x, Pow2(k), 0, x);
  }

  /** The shared part is the beginning of both; it is not empty if the first steps agree. */
  lemma {:induction false} CommonPrefix(path: nat, a: nat, edgePath: nat, length: nat)
    requires path < Pow2(a) && edgePath < Pow2(length)
    ensures var k := SuffixLength(path, a, edgePath, length);
      && 0 <= k <= length && length - k <= a
      && edgePath / Pow2(k) == path / Pow2(a - (length - k))
      && (a > 0 && length > 0 && GoesRight(path, a) == GoesRight(edgePath, length) ==> k < length)
  {
    var aligned := Align(path, a, length);
    var k := SuffixLength(path, a, edgePath, length);
    AlignShift(path, a, length, length);
    assert path / Pow2(a) == 0 by { SmallQuotient(path, a); }
    SmallQuotient(edgePath, length);
    DifferentBits(aligned, edgePath, length);
    DifferentBits(aligned, edgePath, k);
    AlignShift(path, a, length, k);
    if a > 0 && length > 0 && GoesRight(path, a) == GoesRight(edgePath, length) {
      AlignShift(path, a, length, length - 1);
      FirstBit(path, a);
      FirstBit(edgePath, length);
      DifferentBits(aligned, edgePath, length - 1);
    }
  }

  lemma {:induction false} FirstBit(path: nat, length: nat)
    requires length > 0 && path < Pow2(length)
    ensures path / Pow2(length - 1) == if GoesRight(path, length) then 1 else 0
  {
    var m := Pow2(length - 1);
    if path < m { DivUnique(path, m, 0, path); } else { DivUnique(path, m, 1, path - m); }
  }

  /** A node on the way to another one. */
  lemma {:induction false} OnTheWay(top: nat, i: nat, front: nat, k: nat, rest: nat, d: nat, a: nat, p: nat, x: nat)
    requires InTree(top, i) && k + d == a <= Height(top, i) && TwoParts(p, front, k, rest, d)
    requires InTree(top, Descend(i, a, p)) && IsBelow(top, x, Descend(i, a, p))
    ensures InTree(top, Descend(i, k, front)) && IsBelow(top, x, Descend(i, k, front))
  {
    DescendTwice(i, front, k, rest, d, a, p);
    DescendBelow(top, x, i, k, front);
    DescendBelow(top, x, Descend(i, k, front), d, rest);
  }
}
