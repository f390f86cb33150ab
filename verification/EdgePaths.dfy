/**
 Edges of a Patricia tree followed step by step: an edge of `length` steps along `path` leads to the
 only part of the leaves that is not empty.
 */
module EdgePaths {
  import opened Common
  import opened PatriciaEncoding
  import opened PatriciaBuild

  /** x << k */
  function Shl(x: nat, k: nat): nat {
    if k == 0 then x else 2 * Shl(x, k - 1)
  }

  lemma {:induction false} ShlIs(x: nat, k: nat)
    ensures Shl(x, k) == x * Pow2(k)
  {
    if k > 0 { ShlIs(x, k - 1); }
  }

  /** The path `whole` is the path `prefix` of `k` steps and then the path `suffix` of `d` steps. */
  ghost predicate TwoParts(whole: nat, prefix: nat, k: nat, suffix: nat, d: nat) {
    whole == Shl(prefix, d) + suffix && prefix < Pow2(k) && suffix < Pow2(d)
  }

  /** Whether an edge leads to the right. */
  function GoesRight(path: nat, length: nat): bool
    requires length > 0
  {
    path / Pow2(length - 1) != 0
  }

  /** The path below the first step. */
  function PathBelow(path: nat, length: nat): nat
    requires length > 0
  {
    path % Pow2(length - 1)
  }

  lemma {:induction false} FirstStep(path: nat, length: nat)
    requires length > 0 && path < Pow2(length)
    ensures PathBelow(path, length) < Pow2(length - 1)
    ensures path == (if GoesRight(path, length) then Pow2(length - 1) else 0) + PathBelow(path, length)
  {
    var m := Pow2(length - 1);
    if path < m { DivUnique(path, m, 0, path); } else { DivUnique(path, m, 1, path - m); }
  }

  /** The path with a first step in front. */
  lemma {:induction false} StepInFront(right: bool, path: nat, length: nat)
    requires path < Pow2(length)
    ensures var p := (if right then Pow2(length) else 0) + path;
      p < Pow2(length + 1) && GoesRight(p, length + 1) == right && PathBelow(p, length + 1) == path
  {
    var m := Pow2(length);
    if right { DivUnique(m + path, m, 1, path); } else { DivUnique(path, m, 0, path); }
  }

  lemma {:induction false} PathTimes(a: nat, b: nat, m: nat)
    ensures (a + b) * m == a * m + b * m
  {}

  lemma {:induction false} PathRoom(rest: nat, a: nat, path: nat, m: nat)
    requires rest < a && path < m
    ensures rest * m + path < a * m
  {
    assert (a - rest - 1) * m >= 0;
    assert a * m == (rest + 1) * m + (a - rest - 1) * m;
  }

  lemma {:induction false} ShlSum(x: nat, y: nat, d: nat)
    ensures Shl(x + y, d) == Shl(x, d) + Shl(y, d)
  {
    if d > 0 { ShlSum(x, y, d - 1); }
  }

  lemma {:induction false} ShlPow2(k: nat, d: nat)
    ensures Shl(Pow2(k), d) == Pow2(k + d)
  {
    if d > 0 { ShlPow2(k, d - 1); }
  }

  lemma {:induction false} ShlZero(d: nat)
    ensures Shl(0, d) == 0
  {
    if d > 0 { ShlZero(d - 1); }
  }

  /** Two paths in a row fit their lengths. */
  lemma {:induction false} ShlRoom(x: nat, k: nat, y: nat, d: nat)
    requires x < Pow2(k) && y < Pow2(d)
    ensures Shl(x, d) + y < Pow2(k + d)
  {
    ShlIs(x, d);
    Pow2Add(k, d);
    PathRoom(x, Pow2(k), y, Pow2(d));
  }

  /** Two paths in a row, one step further down. */
  lemma {:induction false} PartsStep(whole: nat, total: nat, prefix: nat, k: nat, suffix: nat, d: nat)
    requires 0 < k && total == k + d && TwoParts(whole, prefix, k, suffix, d)
    ensures GoesRight(whole, total) == GoesRight(prefix, k)
    ensures TwoParts(PathBelow(whole, total), PathBelow(prefix, k), k - 1, suffix, d)
  {
    FirstStep(prefix, k);
    var right, below := GoesRight(prefix, k), PathBelow(prefix, k);
    ShlSum(if right then Pow2(k - 1) else 0, below, d);
    ShlPow2(k - 1, d);
    ShlZero(d);
    ShlRoom(below, k - 1, suffix, d);
    StepInFront(right, Shl(below, d) + suffix, total - 1);
  }

  lemma {:induction false} NoPrefix(whole: nat, prefix: nat, suffix: nat, d: nat)
    requires TwoParts(whole, prefix, 0, suffix, d)
    ensures prefix == 0 && whole == suffix
  {
    ShlIs(prefix, d);
  }

  /** The first `k` steps of a path, and the rest. */
  lemma {:induction false} Divided(path: nat, length: nat, k: nat, m: nat)
    requires k <= length && path < Pow2(length) && m == Pow2(length - k)
    ensures path / m >= 0 && TwoParts(path, path / m, k, path % m, length - k)
  {
    Pow2Add(k, length - k);
    QuotientBelow(path, m, Pow2(k));
    Recompose(path, m);
    ShlIs(path / m, length - k);
  }

  lemma {:induction false} Recompose(path: nat, m: nat)
    requires m > 0
    ensures path == (path / m) * m + path % m && 0 <= path % m < m
  {}

  /** All leaves off the path are 0. */
  ghost predicate Sole(leaves: seq<int>, h: nat, length: nat, path: nat)
    requires length <= h && |leaves| == Pow2(h)
    decreases length
  {
    length == 0 ||
      var right := GoesRight(path, length);
      AllZero(Half(leaves, h, !right)) && Sole(Half(leaves, h, right), h - 1, length - 1, PathBelow(path, length))
  }

  /** The leaves below the end of the path. */
  ghost function Bottom(leaves: seq<int>, h: nat, length: nat, path: nat): (r: seq<int>)
    requires length <= h && |leaves| == Pow2(h)
    ensures |r| == Pow2(h - length)
    decreases length
  {
    if length == 0 then leaves
    else Bottom(Half(leaves, h, GoesRight(path, length)), h - 1, length - 1, PathBelow(path, length))
  }

  lemma {:induction false} SoleUp(leaves: seq<int>, h: nat, length: nat, path: nat, right: bool, below: nat)
    requires 0 < length <= h && |leaves| == Pow2(h) && right == GoesRight(path, length) && below == PathBelow(path, length)
    ensures Sole(leaves, h, length, path) <==>
      AllZero(Half(leaves, h, !right)) && Sole(Half(leaves, h, right), h - 1, length - 1, below)
    ensures Bottom(leaves, h, length, path) == Bottom(Half(leaves, h, right), h - 1, length - 1, below)
  {}

  // ---------------------------------------------------------------------------
  // From the bottom to the edge
  // ---------------------------------------------------------------------------

  /** A node reached over `length` steps along `path`. */
  function Lengthen(e: Triplet, length: nat, path: nat): Triplet {
    if e == EMPTY then EMPTY else Triplet(e.length + length, path * Pow2(e.length) + e.path, e.bottom)
  }

  lemma {:induction false} LengthenStep(e: Triplet, length: nat, path: nat)
    requires length > 0 && path < Pow2(length) && e.path < Pow2(e.length) && e != EMPTY && e.bottom != 0
    ensures var below := Lengthen(e, length - 1, PathBelow(path, length));
      && below.path < Pow2(below.length) && below != EMPTY
      && Lengthen(e, length, path)
         == Triplet(below.length + 1, below.path + (if GoesRight(path, length) then Pow2(below.length) else 0), e.bottom)
  {
    FirstStep(path, length);
    var m, rest := Pow2(e.length), PathBelow(path, length);
    Pow2Add(length - 1, e.length);
    PathTimes(Pow2(length - 1), rest, m);
    PathRoom(rest, Pow2(length - 1), e.path, m);
  }

  lemma {:induction false} JoinHalf(H: Hash, leaves: seq<int>, h: nat, right: bool, n: nat)
    requires CollisionFree(H, n) && 0 < h <= n && |leaves| == Pow2(h) && AllZero(Half(leaves, h, !right))
    ensures var e := Encode(H, Half(leaves, h, right), h - 1);
      Encode(H, leaves, h)
        == if e == EMPTY then EMPTY
           else Triplet(e.length + 1, e.path + (if right then Pow2(e.length) else 0), e.bottom)
  {
    EncodeShape(H, Half(leaves, h, !right), h - 1, n);
  }

  /** Where all other leaves are 0, the node of the whole is the node of the bottom, lengthened. */
  lemma {:induction false} EdgeOfBottom(H: Hash, leaves: seq<int>, h: nat, n: nat, length: nat, path: nat, w: nat, e: Triplet)
    requires CollisionFree(H, n) && length + w == h <= n && |leaves| == Pow2(h) && path < Pow2(length)
    requires Sole(leaves, h, length, path) && e == Encode(H, Bottom(leaves, h, length, path), w)
    ensures Encode(H, leaves, h) == Lengthen(e, length, path)
    decreases length
  {
    if length == 0 {
      NoSteps(e);
    } else {
      var right, rest := GoesRight(path, length), PathBelow(path, length);
      FirstStep(path, length);
      SoleUp(leaves, h, length, path, right, rest);
      EdgeOfBottom(H, Half(leaves, h, right), h - 1, n, length - 1, rest, w, e);
      JoinHalf(H, leaves, h, right, n);
      BottomTells(H, Bottom(leaves, h, length, path), w, n, e);
      if e != EMPTY { LengthenStep(e, length, path); }
    }
  }

  lemma {:induction false} NoSteps(e: Triplet)
    ensures Lengthen(e, 0, 0) == e
  {}

  lemma {:induction false} BottomTells(H: Hash, leaves: seq<int>, h: nat, n: nat, e: Triplet)
    requires CollisionFree(H, n) && h <= n && |leaves| == Pow2(h) && e == Encode(H, leaves, h)
    ensures e.path < Pow2(e.length) && (e == EMPTY <==> e.bottom == 0)
  {
    EncodeFits(H, leaves, h);
    EncodeTells(H, leaves, h, n);
  }

  // ---------------------------------------------------------------------------
  // From the edge to the bottom
  // ---------------------------------------------------------------------------

  /** The children of a node that is an edge. */
  lemma {:induction false} JoinIsEdge(H: Hash, l: Triplet, r: Triplet, e: Triplet)
    requires e == Join(H, l, r) && e.length > 0 && l.path < Pow2(l.length) && r.path < Pow2(r.length)
    ensures var right := GoesRight(e.path, e.length);
      && (if right then l else r) == EMPTY
      && (if right then r else l) == Triplet(e.length - 1, PathBelow(e.path, e.length), e.bottom)
  {
    if l == EMPTY { StepInFront(true, r.path, r.length); } else { StepInFront(false, l.path, l.length); }
  }

  lemma {:induction false} EdgeHalves(H: Hash, leaves: seq<int>, h: nat, n: nat, e: Triplet)
    requires CollisionFree(H, n) && 0 < h <= n && |leaves| == Pow2(h) && e == Encode(H, leaves, h) && e.length > 0
    ensures var right := GoesRight(e.path, e.length);
      && AllZero(Half(leaves, h, !right))
      && Encode(H, Half(leaves, h, right), h - 1) == Triplet(e.length - 1, PathBelow(e.path, e.length), e.bottom)
  {
    var l, r := LeftHalf(leaves, h), RightHalf(leaves, h);
    var el, er := Encode(H, l, h - 1), Encode(H, r, h - 1);
    EncodeFits(H, l, h - 1);
    EncodeFits(H, r, h - 1);
    JoinIsEdge(H, el, er, e);
    EncodeTells(H, if GoesRight(e.path, e.length) then l else r, h - 1, n);
  }

  lemma {:induction false} TimesMonotone(a: nat, b: nat, m: nat)
    requires a <= b
    ensures a * m <= b * m
  {}

  lemma {:induction false} QuotientBelow(x: nat, m: nat, a: nat)
    requires m > 0 && x < a * m
    ensures 0 <= x / m < a
  {
    var q := x / m;
    assert q * m <= x;
    if q >= a { TimesMonotone(a, q, m); }
  }

  lemma {:induction false} SplitQuotient(path: nat, front: nat, rest: nat, m: nat, a: nat)
    requires m > 0 && rest < a * m && path == front * m + rest
    ensures path / m == front + rest / m && path % m == rest % m && 0 <= rest / m < a
  {
    QuotientBelow(rest, m, a);
    PathTimes(front, rest / m, m);
    DivUnique(path, m, front + rest / m, rest % m);
  }

  lemma {:induction false} BottomUp(H: Hash, leaves: seq<int>, h: nat, k: nat, w: nat, prefix: nat, right: bool, below: nat, e: Triplet)
    requires 0 < k && k + w == h && |leaves| == Pow2(h) && right == GoesRight(prefix, k) && below == PathBelow(prefix, k)
    requires AllZero(Half(leaves, h, !right)) && Sole(Half(leaves, h, right), h - 1, k - 1, below)
    requires Encode(H, Bottom(Half(leaves, h, right), h - 1, k - 1, below), w) == e
    ensures Sole(leaves, h, k, prefix) && Encode(H, Bottom(leaves, h, k, prefix), w) == e
  {
    SoleUp(leaves, h, k, prefix, right, below);
  }

  /** A node that is an edge is, `k` steps down, a shorter edge to the same bottom, and all else is 0. */
  lemma {:induction false} EdgeSplits(H: Hash, leaves: seq<int>, h: nat, n: nat, e: Triplet, k: nat, d: nat, w: nat, prefix: nat, suffix: nat)
    requires CollisionFree(H, n) && k + w == h <= n && |leaves| == Pow2(h) && e == Encode(H, leaves, h)
    requires k + d == e.length && TwoParts(e.path, prefix, k, suffix, d)
    ensures Sole(leaves, h, k, prefix) && Encode(H, Bottom(leaves, h, k, prefix), w) == Triplet(d, suffix, e.bottom)
    decreases k
  {
    if k == 0 {
      NoPrefix(e.path, prefix, suffix, d);
    } else {
      EdgeHalves(H, leaves, h, n, e);
      PartsStep(e.path, e.length, prefix, k, suffix, d);
      var right, rest, below := GoesRight(e.path, e.length), PathBelow(e.path, e.length), PathBelow(prefix, k);
      EdgeSplits(H, Half(leaves, h, right), h - 1, n, Triplet(e.length - 1, rest, e.bottom), k - 1, d, w, below, suffix);
      BottomUp(H, leaves, h, k, w, prefix, right, below, Triplet(d, suffix, e.bottom));
    }
  }

  /** The stored facts below an edge are those below its bottom. */
  lemma {:induction false} SoleStored(H: Hash, s: Preimages, leaves: seq<int>, h: nat, n: nat, length: nat, path: nat)
    requires CollisionFree(H, n) && length <= h <= n && |leaves| == Pow2(h) && Sole(leaves, h, length, path)
    ensures StoredBelow(H, s, leaves, h) <==> StoredBelow(H, s, Bottom(leaves, h, length, path), h - length)
    decreases length
  {
    if length > 0 {
      var right := GoesRight(path, length);
      SoleStored(H, s, Half(leaves, h, right), h - 1, n, length - 1, PathBelow(path, length));
      HalfStored(H, s, leaves, h, n, right);
    }
  }

  lemma {:induction false} HalfStored(H: Hash, s: Preimages, leaves: seq<int>, h: nat, n: nat, right: bool)
    requires CollisionFree(H, n) && 0 < h <= n && |leaves| == Pow2(h) && AllZero(Half(leaves, h, !right))
    ensures StoredBelow(H, s, leaves, h) <==> StoredBelow(H, s, Half(leaves, h, right), h - 1)
  {
    var l, r := LeftHalf(leaves, h), RightHalf(leaves, h);
    EncodeShape(H, l, h - 1, n);
    EncodeShape(H, r, h - 1, n);
    if !right && Encode(H, l, h - 1) == EMPTY {
      EmptyStored(H, s, l, h - 1, n);
      EmptyStored(H, s, r, h - 1, n);
    }
  }
}
