/**
 The Pedersen hash bit by bit (src/starkware/crypto/signature/signature.py) and from two multiples
 per element (src/starkware/crypto/signature/fast_pedersen_hash.py), with the table of constant
 points that both use (src/starkware/crypto/signature/nothing_up_my_sleeve_gen.py).
 */
module Pedersen {
  import opened Common
  import opened NumberTheory
  import opened Curve

  /** `low` is LOW_PART_BITS (248) and `high` the number of remaining bits (4). */
  datatype Layout = Layout(curve: Curve, low: nat, high: nat)

  predicate ValidLayout(L: Layout) {
    L.curve.p > 0 && L.low > 0 && L.high > 0
  }

  // ---------------------------------------------------------------------------
  // The table
  // ---------------------------------------------------------------------------

  /** The inner loop: appends `count` points, doubling after each. */
  function AppendDoubles(points: seq<Point>, P: Point, count: nat, c: Curve): (r: Option<seq<Point>>)
    requires c.p > 0
    ensures r.Some? ==> |r.value| == |points| + count
    decreases count
  {
    if count == 0 then Some(points)
    else
      var d := EcDouble(P, c.alpha, c.p);
      if d.None? then None else AppendDoubles(points + [P], d.value, count - 1, c)
  }

  /** The outer loop, with `base(i)` the i-th point found in the digits of pi. */
  function Generate(L: Layout, base: nat -> Point, n: nat, points: seq<Point>, i: nat): Option<seq<Point>>
    requires ValidLayout(L)
    decreases n - |points|
  {
    if |points| >= n then Some(points)
    else if i + 1 <= 2 then Generate(L, base, n, points + [base(i + 1)], i + 1)
    else
      var more := AppendDoubles(points, base(i + 1), if (i + 1) % 2 == 1 then L.low else L.high, L.curve);
      if more.None? then None else Generate(L, base, n, more.value, i + 1)
  }

  /** generate_constant_points */
  method GenerateConstantPoints(L: Layout, base: nat -> Point, n: nat) returns (r: Option<seq<Point>>)
    requires ValidLayout(L)
    ensures r == Generate(L, base, n, [], 0)
  {
    var points: seq<Point> := [];
    var i := 0;
    while |points| < n
      invariant Generate(L, base, n, points, i) == Generate(L, base, n, [], 0)
      decreases n - |points|
    {
      i := i + 1;
      var P := base(i);
      if i <= 2 {
        points := points + [P];
      } else {
        var count := if i % 2 == 1 then L.low else L.high;
        ghost var before, first := points, P;
        for j := 0 to count
          invariant |points| == |before| + j
          invariant AppendDoubles(before, first, count, L.curve) == AppendDoubles(points, P, count - j, L.curve)
        {
          points := points + [P];
          var d := EcDouble(P, L.curve.alpha, L.curve.p);
          if d.None? { return None; }
          P := d.value;
        }
      }
    }
    return Some(points);
  }

  /** a, 2a, 4a, ... */
  ghost function Doubles(a: int, t: nat): (r: seq<int>)
    ensures |r| == t
    decreases t
  {
    if t == 0 then [] else [a] + Doubles(2 * a, t - 1)
  }

  ghost function Points(pt: int -> Point, exps: seq<int>): (r: seq<Point>)
    ensures |r| == |exps|
  {
    if exps == [] then [] else [pt(exps[0])] + Points(pt, exps[1..])
  }

  ghost predicate AllFinite(exps: seq<int>, n: int)
    requires n > 0
  {
    forall i :: 0 <= i < |exps| ==> Finite(exps[i], n)
  }

  lemma {:induction false} PointsConcat(pt: int -> Point, a: seq<int>, b: seq<int>)
    ensures Points(pt, a + b) == Points(pt, a) + Points(pt, b)
  {
    if a == [] {
      assert a + b == b;
    } else {
      assert (a + b)[1..] == a[1..] + b;
      PointsConcat(pt, a[1..], b);
    }
  }

  lemma {:induction false} DoublesFinite(a: int, t: nat, n: int)
    requires Prime(n) && n > 2 && Finite(a, n)
    ensures AllFinite(Doubles(a, t), n)
    decreases t
  {
    if t > 0 {
      DoubleFinite(a, n);
      DoublesFinite(2 * a, t - 1, n);
    }
  }

  lemma AppendStep(points: seq<Point>, P: Point, D: Point, count: nat, c: Curve)
    requires c.p > 0 && count > 0 && EcDouble(P, c.alpha, c.p) == Some(D)
    ensures AppendDoubles(points, P, count, c) == AppendDoubles(points + [P], D, count - 1, c)
  {}

  lemma PointsStep(pt: int -> Point, points: seq<Point>, a: int, count: nat)
    requires count > 0
    ensures points + Points(pt, Doubles(a, count)) == points + [pt(a)] + Points(pt, Doubles(2 * a, count - 1))
  {
    assert Doubles(a, count)[1..] == Doubles(2 * a, count - 1);
  }

  lemma {:induction false} AppendDoublesIs(c: Curve, pt: int -> Point, points: seq<Point>, a: int, count: nat)
    requires IsGroup(c, pt) && Finite(a, c.n)
    ensures AppendDoubles(points, pt(a), count, c) == Some(points + Points(pt, Doubles(a, count)))
    decreases count
  {
    if count == 0 {
      assert points + [] == points;
    } else {
      DoubleIs(c, pt, a);
      AppendStep(points, pt(a), pt(2 * a), count, c);
      AppendDoublesIs(c, pt, points + [pt(a)], 2 * a, count - 1);
      PointsStep(pt, points, a, count);
    }
  }

  /** The multiples in the part of the table for one element. */
  ghost function ElementExps(L: Layout, a: int, b: int): (r: seq<int>)
    ensures |r| == L.low + L.high
  {
    Doubles(a, L.low) + Doubles(b, L.high)
  }

  lemma ElementExpsFinite(L: Layout, a: int, b: int)
    requires Prime(L.curve.n) && L.curve.n > 2 && Finite(a, L.curve.n) && Finite(b, L.curve.n)
    ensures AllFinite(ElementExps(L, a, b), L.curve.n)
  {
    DoublesFinite(a, L.low, L.curve.n);
    DoublesFinite(b, L.high, L.curve.n);
  }

  /** `e[0]` is the shift point, `e[1]` the generator, then two multiples for each element. */
  ghost predicate Bases(L: Layout, pt: int -> Point, base: nat -> Point, e: seq<int>) {
    IsGroup(L.curve, pt) && ValidLayout(L) && |e| == 6 && AllFinite(e, L.curve.n)
    && forall i :: 0 <= i < 6 ==> base(i + 1) == pt(e[i])
  }

  ghost function Table(L: Layout, pt: int -> Point, e: seq<int>): seq<Point>
    requires |e| == 6
  {
    [pt(e[0]), pt(e[1])] + Points(pt, ElementExps(L, e[2], e[3])) + Points(pt, ElementExps(L, e[4], e[5]))
  }

  lemma GenerateRound(L: Layout, base: nat -> Point, n: nat, points: seq<Point>, i: nat, more: seq<Point>)
    requires ValidLayout(L) && i >= 2 && |points| < n
    requires AppendDoubles(points, base(i + 1), if i % 2 == 0 then L.low else L.high, L.curve) == Some(more)
    ensures Generate(L, base, n, points, i) == Generate(L, base, n, more, i + 1)
  {
    NextParity(i);
  }

  lemma NextParity(i: nat)
    ensures (i + 1) % 2 == 1 <==> i % 2 == 0
  {}

  /** One even and one odd round of the outer loop fill the part for one element. */
  lemma GenerateElement(L: Layout, pt: int -> Point, base: nat -> Point, n: nat, points: seq<Point>, i: nat, a: int, b: int)
    requires IsGroup(L.curve, pt) && ValidLayout(L) && Finite(a, L.curve.n) && Finite(b, L.curve.n)
    requires i >= 2 && i % 2 == 0 && base(i + 1) == pt(a) && base(i + 2) == pt(b) && |points| + L.low < n
    ensures Generate(L, base, n, points, i)
         == Generate(L, base, n, points + Points(pt, ElementExps(L, a, b)), i + 2)
  {
    var mid := points + Points(pt, Doubles(a, L.low));
    var end := points + Points(pt, ElementExps(L, a, b));
    assert Generate(L, base, n, points, i) == Generate(L, base, n, mid, i + 1) by {
      AppendDoublesIs(L.curve, pt, points, a, L.low);
      GenerateRound(L, base, n, points, i, mid);
    }
    assert Generate(L, base, n, mid, i + 1) == Generate(L, base, n, end, i + 2) by {
      AppendDoublesIs(L.curve, pt, mid, b, L.high);
      PointsConcat(pt, Doubles(a, L.low), Doubles(b, L.high));
      assert mid + Points(pt, Doubles(b, L.high)) == end;
      GenerateRound(L, base, n, mid, i + 1, end);
    }
  }

  /** The generated table for two elements: for each the doublings of two points. */
  lemma GenerateIsTable(L: Layout, pt: int -> Point, base: nat -> Point, e: seq<int>)
    requires Bases(L, pt, base, e)
    ensures Generate(L, base, 2 + 2 * (L.low + L.high), [], 0) == Some(Table(L, pt, e))
  {
    var n := 2 + 2 * (L.low + L.high);
    assert base(1) == pt(e[0]) && base(2) == pt(e[1]);
    var start := [pt(e[0]), pt(e[1])];
    assert Generate(L, base, n, [], 0) == Generate(L, base, n, start, 2) by {
      assert [] + [base(1)] == [pt(e[0])];
      assert [pt(e[0])] + [base(2)] == start;
    }
    assert base(3) == pt(e[2]) && base(4) == pt(e[3]) && base(5) == pt(e[4]) && base(6) == pt(e[5]);
    GenerateElement(L, pt, base, n, start, 2, e[2], e[3]);
    GenerateElement(L, pt, base, n, start + Points(pt, ElementExps(L, e[2], e[3])), 4, e[4], e[5]);
  }

  // ---------------------------------------------------------------------------
  // Bit by bit
  // ---------------------------------------------------------------------------

  /** The loop over the points of one element; None is a failed assertion. */
  function AddBits(sum: Point, pts: seq<Point>, x: nat, p: int): Option<Point>
    requires p > 0
    decreases |pts|
  {
    if pts == [] then (if x == 0 then Some(sum) else None)
    else if sum.x == pts[0].x then None
    else
      var s := if x % 2 == 1 then EcAdd(sum, pts[0], p) else Some(sum);
      if s.None? then None else AddBits(s.value, pts[1..], x / 2, p)
  }

  /** The loop over the elements, with the part of the table not used yet. */
  function HashFrom(L: Layout, sum: Point, elements: seq<int>, rest: seq<Point>): Option<Point>
    requires ValidLayout(L)
    decreases |elements|
  {
    if elements == [] then Some(sum)
    else if !(0 <= elements[0] < L.curve.p) || |rest| < L.low + L.high then None
    else
      var s := AddBits(sum, rest[..L.low + L.high], elements[0], L.curve.p);
      if s.None? then None else HashFrom(L, s.value, elements[1..], rest[L.low + L.high..])
  }

  /** pedersen_hash_as_point */
  method PedersenHashAsPoint(L: Layout, table: seq<Point>, elements: seq<int>) returns (r: Option<Point>)
    requires ValidLayout(L) && |table| >= 2
    ensures r == HashFrom(L, table[0], elements, table[2..])
  {
    var bits := L.low + L.high;
    var point := table[0];
    var from := 2;
    for i := 0 to |elements|
      invariant 2 <= from <= |table|
      invariant HashFrom(L, table[0], elements, table[2..]) == HashFrom(L, point, elements[i..], table[from..])
    {
      var x := elements[i];
      assert elements[i..][1..] == elements[i + 1..];
      if !(0 <= x < L.curve.p) { return None; }
      if |table| < from + bits { return None; }
      var pointList := table[from..from + bits];
      assert table[from..][..bits] == pointList && table[from..][bits..] == table[from + bits..];
      ghost var start := point;
      for j := 0 to bits
        invariant x >= 0
        invariant AddBits(start, pointList, elements[i], L.curve.p) == AddBits(point, pointList[j..], x, L.curve.p)
      {
        assert pointList[j..][1..] == pointList[j + 1..];
        if point.x == pointList[j].x { return None; }
        if x % 2 == 1 {
          var sum := EcAdd(point, pointList[j], L.curve.p);
          if sum.None? { return None; }
          point := sum.value;
        }
        x := x / 2;
      }
      if x != 0 { return None; }
      from := from + bits;
    }
    return Some(point);
  }

  /** The sum of the multiples whose bit is set. */
  ghost function BitSum(exps: seq<int>, x: nat): int {
    if exps == [] then 0 else (if x % 2 == 1 then exps[0] else 0) + BitSum(exps[1..], x / 2)
  }

  /** No addition meets equal x coordinates. */
  ghost predicate BitsClear(pt: int -> Point, s: int, exps: seq<int>, x: nat)
    decreases |exps|
  {
    exps != [] ==>
      pt(s).x != pt(exps[0]).x && BitsClear(pt, if x % 2 == 1 then s + exps[0] else s, exps[1..], x / 2)
  }

  lemma {:induction false} AddBitsIs(c: Curve, pt: int -> Point, s: int, exps: seq<int>, x: nat)
    requires IsGroup(c, pt) && Finite(s, c.n) && AllFinite(exps, c.n) && x < Pow2(|exps|)
    ensures AddBits(pt(s), Points(pt, exps), x, c.p)
         == if BitsClear(pt, s, exps, x) then Some(pt(s + BitSum(exps, x))) else None
    ensures BitsClear(pt, s, exps, x) ==> Finite(s + BitSum(exps, x), c.n)
    decreases |exps|
  {
    if exps != [] && pt(s).x != pt(exps[0]).x {
      assert Finite(exps[0], c.n);
      AddIs(c, pt, s, exps[0]);
      var next := if x % 2 == 1 then s + exps[0] else s;
      AddBitsIs(c, pt, next, exps[1..], x / 2);
      assert Points(pt, exps)[1..] == Points(pt, exps[1..]);
      assert s + BitSum(exps, x) == next + BitSum(exps[1..], x / 2);
    }
  }

  lemma LowBitsTimes(x: nat, t: nat, a: int)
    requires t > 0
    ensures LowBits(x, t) * a == (if x % 2 == 1 then a else 0) + LowBits(x / 2, t - 1) * (2 * a)
  {
    var l := LowBits(x / 2, t - 1);
    assert (x % 2 + 2 * l) * a == (x % 2) * a + l * (2 * a);
  }

  lemma {:induction false} BitSumDoubles(a: int, t: nat, x: nat)
    ensures BitSum(Doubles(a, t), x) == LowBits(x, t) * a
    decreases t
  {
    if t > 0 {
      BitSumDoubles(2 * a, t - 1, x / 2);
      assert Doubles(a, t)[1..] == Doubles(2 * a, t - 1);
      LowBitsTimes(x, t, a);
    }
  }

  lemma {:induction false} AboveHalf(x: int, h: nat)
    ensures Above(x / 2, h) == Above(x, h + 1)
  {
    if h > 0 { AboveHalf(x, h - 1); }
  }

  lemma {:induction false} BitSumConcat(e: seq<int>, f: seq<int>, x: nat)
    ensures Above(x, |e|) >= 0 && BitSum(e + f, x) == BitSum(e, x) + BitSum(f, Above(x, |e|))
    decreases |e|
  {
    if e == [] {
      assert e + f == f;
    } else {
      assert (e + f)[1..] == e[1..] + f;
      BitSumConcat(e[1..], f, x / 2);
      AboveHalf(x, |e| - 1);
    }
  }

  function LowPart(x: nat, low: nat): nat {
    x % Pow2(low)
  }

  function HighPart(x: nat, low: nat): nat {
    QuotientNat(x, Pow2(low));
    x / Pow2(low)
  }

  lemma CancelLess(q: int, h: int, l: int)
    requires l > 0 && q * l < l * h
    ensures q < h
  {}

  lemma HighPartBound(x: nat, low: nat, high: nat)
    requires x < Pow2(low + high)
    ensures HighPart(x, low) < Pow2(high)
  {
    Pow2Add(low, high);
    CancelLess(x / Pow2(low), Pow2(high), Pow2(low));
  }

  /** The bits of one element weigh its low part and its high part. */
  lemma BitSumElement(L: Layout, a: int, b: int, x: nat)
    requires x < Pow2(L.low + L.high)
    ensures BitSum(ElementExps(L, a, b), x) == LowPart(x, L.low) * a + HighPart(x, L.low) * b
  {
    BitSumConcat(Doubles(a, L.low), Doubles(b, L.high), x);
    AboveIsDiv(x, L.low);
    HighPartBound(x, L.low, L.high);
    var q := HighPart(x, L.low);
    BitSumDoubles(a, L.low, x);
    BitSumDoubles(b, L.high, q);
    LowBitsIsMod(x, L.low);
    LowBitsIsMod(q, L.high);
    DivUnique(q, Pow2(L.high), 0, q);
  }

  // ---------------------------------------------------------------------------
  // From two multiples per element
  // ---------------------------------------------------------------------------

  /** The operators of the point type, which know the point at infinity. */
  function Plus(a: Option<AnyPoint>, b: Option<AnyPoint>, c: Curve): Option<AnyPoint>
    requires c.p > 0
  {
    if a.None? || b.None? then None else SafeAdd(a.value, b.value, c.alpha, c.p)
  }

  /** process_single_element */
  function ProcessSingleElement(L: Layout, element: int, p1: Point, p2: Point): Option<AnyPoint>
    requires ValidLayout(L)
  {
    if !(0 <= element < L.curve.p) then None
    else
      Plus(SafeMult(LowPart(element, L.low), Affine(p1), L.curve.alpha, L.curve.p),
           SafeMult(HighPart(element, L.low), Affine(p2), L.curve.alpha, L.curve.p), L.curve)
  }

  /** The point whose x coordinate pedersen_hash returns. */
  function FastHash(L: Layout, table: seq<Point>, x: int, y: int): Option<AnyPoint>
    requires ValidLayout(L) && |table| == 2 + 2 * (L.low + L.high)
  {
    var bits := L.low + L.high;
    Plus(Plus(Some(Affine(table[0])),
              ProcessSingleElement(L, x, table[2], table[2 + L.low]), L.curve),
         ProcessSingleElement(L, y, table[2 + bits], table[2 + bits + L.low]), L.curve)
  }

  /** The multiple that one element contributes. */
  ghost function Weight(L: Layout, x: int, a: int, b: int): int {
    if x < 0 then 0 else LowPart(x, L.low) * a + HighPart(x, L.low) * b
  }

  lemma ProcessIs(L: Layout, pt: int -> Point, x: int, a: int, b: int)
    requires IsGroup(L.curve, pt) && ValidLayout(L) && Finite(a, L.curve.n) && Finite(b, L.curve.n)
    ensures ProcessSingleElement(L, x, pt(a), pt(b))
         == if 0 <= x < L.curve.p then Some(Elem(L.curve, pt, Weight(L, x, a, b))) else None
  {
    if 0 <= x < L.curve.p {
      var l, h := LowPart(x, L.low), HighPart(x, L.low);
      SafeMultIs(L.curve, pt, l, a);
      SafeMultIs(L.curve, pt, h, b);
      SafeAddIs(L.curve, pt, l * a, h * b);
    }
  }

  lemma TableAt(L: Layout, pt: int -> Point, e: seq<int>)
    requires |e| == 6 && ValidLayout(L)
    ensures var t := Table(L, pt, e);
      var bits := L.low + L.high;
      && |t| == 2 + 2 * bits
      && t[0] == pt(e[0]) && t[2] == pt(e[2]) && t[2 + L.low] == pt(e[3])
      && t[2 + bits] == pt(e[4]) && t[2 + bits + L.low] == pt(e[5])
      && t[2..][..bits] == Points(pt, ElementExps(L, e[2], e[3]))
      && t[2..][bits..] == Points(pt, ElementExps(L, e[4], e[5]))
  {
    ElementAt(L, pt, e[2], e[3]);
    ElementAt(L, pt, e[4], e[5]);
  }

  lemma ElementAt(L: Layout, pt: int -> Point, a: int, b: int)
    requires ValidLayout(L)
    ensures var r := Points(pt, ElementExps(L, a, b));
      r[0] == pt(a) && r[L.low] == pt(b)
  {
    PointsConcat(pt, Doubles(a, L.low), Doubles(b, L.high));
    assert Points(pt, Doubles(a, L.low))[0] == pt(a);
    assert Points(pt, Doubles(b, L.high))[0] == pt(b);
  }

  /** The fast form never fails on elements of the field. */
  lemma FastHashIs(L: Layout, pt: int -> Point, e: seq<int>, x: int, y: int)
    requires IsGroup(L.curve, pt) && ValidLayout(L) && |e| == 6 && AllFinite(e, L.curve.n)
    ensures |Table(L, pt, e)| == 2 + 2 * (L.low + L.high)
    ensures FastHash(L, Table(L, pt, e), x, y)
         == if 0 <= x < L.curve.p && 0 <= y < L.curve.p
            then Some(Elem(L.curve, pt, e[0] + Weight(L, x, e[2], e[3]) + Weight(L, y, e[4], e[5])))
            else None
  {
    TableAt(L, pt, e);
    ProcessIs(L, pt, x, e[2], e[3]);
    ProcessIs(L, pt, y, e[4], e[5]);
    if 0 <= x < L.curve.p && 0 <= y < L.curve.p {
      var u, v := Weight(L, x, e[2], e[3]), Weight(L, y, e[4], e[5]);
      SafeAddIs(L.curve, pt, e[0], u);
      SafeAddIs(L.curve, pt, e[0] + u, v);
    }
  }

  // ---------------------------------------------------------------------------
  // Agreement
  // ---------------------------------------------------------------------------

  /** The bitwise hash of two elements meets no equal x coordinates. */
  ghost predicate Hashable(L: Layout, pt: int -> Point, e: seq<int>, x: nat, y: nat)
    requires |e| == 6
  {
    && BitsClear(pt, e[0], ElementExps(L, e[2], e[3]), x)
    && BitsClear(pt, e[0] + Weight(L, x, e[2], e[3]), ElementExps(L, e[4], e[5]), y)
  }

  lemma ElementIs(L: Layout, pt: int -> Point, s: int, a: int, b: int, x: int)
    requires IsGroup(L.curve, pt) && Finite(s, L.curve.n) && Finite(a, L.curve.n) && Finite(b, L.curve.n)
    requires 0 <= x < L.curve.p < Pow2(L.low + L.high)
    ensures var exps := ElementExps(L, a, b);
      var clear := BitsClear(pt, s, exps, x);
      && AddBits(pt(s), Points(pt, exps), x, L.curve.p) == (if clear then Some(pt(s + Weight(L, x, a, b))) else None)
      && (clear ==> Finite(s + Weight(L, x, a, b), L.curve.n))
  {
    ElementExpsFinite(L, a, b);
    AddBitsIs(L.curve, pt, s, ElementExps(L, a, b), x);
    BitSumElement(L, a, b, x);
  }

  /** The bitwise hash of two elements, with the two parts of the table it uses. */
  function HashPair(p: int, sum: Point, x: int, y: int, first: seq<Point>, second: seq<Point>): Option<Point>
    requires p > 0
  {
    if !(0 <= x < p) then None
    else
      var s := AddBits(sum, first, x, p);
      if s.None? || !(0 <= y < p) then None else AddBits(s.value, second, y, p)
  }

  lemma HashOfOne(L: Layout, sum: Point, y: int, rest: seq<Point>)
    requires ValidLayout(L) && |rest| == L.low + L.high
    ensures HashFrom(L, sum, [y], rest) == if 0 <= y < L.curve.p then AddBits(sum, rest, y, L.curve.p) else None
  {
    assert rest[..L.low + L.high] == rest && [y][1..] == [];
  }

  lemma HashOfTwo(L: Layout, sum: Point, x: int, y: int, rest: seq<Point>)
    requires ValidLayout(L) && |rest| == 2 * (L.low + L.high)
    ensures HashFrom(L, sum, [x, y], rest)
         == HashPair(L.curve.p, sum, x, y, rest[..L.low + L.high], rest[L.low + L.high..])
  {
    var bits := L.low + L.high;
    assert [x, y][1..] == [y];
    if 0 <= x < L.curve.p {
      var s := AddBits(sum, rest[..bits], x, L.curve.p);
      if s.Some? { HashOfOne(L, s.value, y, rest[bits..]); }
    }
  }

  lemma HashPairIs(L: Layout, pt: int -> Point, e: seq<int>, x: int, y: int)
    requires IsGroup(L.curve, pt) && |e| == 6 && AllFinite(e, L.curve.n) && L.curve.p < Pow2(L.low + L.high)
    ensures var T := e[0] + Weight(L, x, e[2], e[3]) + Weight(L, y, e[4], e[5]);
      var ok := 0 <= x < L.curve.p && 0 <= y < L.curve.p && Hashable(L, pt, e, x, y);
      var (first, second) := (Points(pt, ElementExps(L, e[2], e[3])), Points(pt, ElementExps(L, e[4], e[5])));
      && HashPair(L.curve.p, pt(e[0]), x, y, first, second) == (if ok then Some(pt(T)) else None)
      && (ok ==> Finite(T, L.curve.n))
  {
    assert Finite(e[0], L.curve.n) && Finite(e[2], L.curve.n) && Finite(e[3], L.curve.n);
    assert Finite(e[4], L.curve.n) && Finite(e[5], L.curve.n);
    if 0 <= x < L.curve.p {
      ElementIs(L, pt, e[0], e[2], e[3], x);
      if BitsClear(pt, e[0], ElementExps(L, e[2], e[3]), x) && 0 <= y < L.curve.p {
        ElementIs(L, pt, e[0] + Weight(L, x, e[2], e[3]), e[4], e[5], y);
      }
    }
  }

  /** The bitwise hash rejects exactly the inputs outside the field and the unhashable ones. */
  lemma BitwiseIs(L: Layout, pt: int -> Point, e: seq<int>, x: int, y: int)
    requires IsGroup(L.curve, pt) && ValidLayout(L) && |e| == 6 && AllFinite(e, L.curve.n)
    requires L.curve.p < Pow2(L.low + L.high)
    ensures |Table(L, pt, e)| >= 2
    ensures var T := e[0] + Weight(L, x, e[2], e[3]) + Weight(L, y, e[4], e[5]);
      var t := Table(L, pt, e);
      var ok := 0 <= x < L.curve.p && 0 <= y < L.curve.p && Hashable(L, pt, e, x, y);
      && HashFrom(L, t[0], [x, y], t[2..]) == (if ok then Some(pt(T)) else None)
      && (ok ==> Finite(T, L.curve.n))
  {
    TableAt(L, pt, e);
    var t := Table(L, pt, e);
    HashOfTwo(L, t[0], x, y, t[2..]);
    HashPairIs(L, pt, e, x, y);
  }

  /** Main result: whenever the bitwise hash does not reject two elements, the fast form agrees. */
  lemma FastEqualsBitwise(L: Layout, pt: int -> Point, base: nat -> Point, e: seq<int>, x: int, y: int)
    requires Bases(L, pt, base, e) && L.curve.p < Pow2(L.low + L.high)
    ensures var g := Generate(L, base, 2 + 2 * (L.low + L.high), [], 0);
      && g.Some? && |g.value| == 2 + 2 * (L.low + L.high)
      && var h := HashFrom(L, g.value[0], [x, y], g.value[2..]);
         h.Some? ==> FastHash(L, g.value, x, y) == Some(Affine(h.value))
  {
    GenerateIsTable(L, pt, base, e);
    FastHashIs(L, pt, e, x, y);
    BitwiseIs(L, pt, e, x, y);
  }
}
