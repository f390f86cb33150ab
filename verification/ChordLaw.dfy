/**
 What ec_add and ec_double compute (src/starkware/crypto/signature/math_utils.py), without assuming a
 group: the third point where a chord or a tangent meets the curve, mirrored.
 */
module ChordLaw {
  import opened Common
  import opened NumberTheory
  import opened C = Curve

  function Cubic(c: Curve, x: int): int {
    x * x * x + c.alpha * x + c.beta
  }

  /** The line through `a` with slope `m`. */
  function Line(a: Point, m: int, x: int): int {
    m * (x - a.x) + a.y
  }

  /** What is left of the curve above the line. */
  function Gap(c: Curve, a: Point, m: int, x: int): int {
    Cubic(c, x) - Line(a, m, x) * Line(a, m, x)
  }

  /** The line meets the curve at `x1`, `x2` and `x3`, counted with multiplicity. */
  ghost predicate Meets(c: Curve, a: Point, m: int, x1: int, x2: int, x3: int)
    requires c.p > 0
  {
    forall x {:trigger Gap(c, a, m, x)} :: Cong(Gap(c, a, m, x), (x - x1) * ((x - x2) * (x - x3)), c.p)
  }

  // ---------------------------------------------------------------------------
  // Dividing by the known roots
  // ---------------------------------------------------------------------------

  /** The gap divided by x - a.x. */
  function Quotient(c: Curve, a: Point, m: int, x: int): int {
    x * x + x * a.x + a.x * a.x + c.alpha - m * (m * (x - a.x) + 2 * a.y)
  }

  lemma CubeDifference(x: int, z: int, alpha: int)
    ensures x * x * x + alpha * x - (z * z * z + alpha * z) == (x - z) * (x * x + x * z + z * z + alpha)
  {
    assert (x - z) * (x * x + x * z + z * z + alpha)
        == (x - z) * (x * x) + (x - z) * (x * z) + (x - z) * (z * z) + (x - z) * alpha;
  }

  lemma SquareDifference(md: int, y: int)
    ensures (md + y) * (md + y) - y * y == md * (md + 2 * y)
  {}

  lemma TakeOut(d: int, m: int, u: int, v: int)
    ensures d * u - (m * d) * v == d * (u - m * v)
  {}

  lemma FirstRoot(c: Curve, a: Point, m: int, x: int)
    ensures Gap(c, a, m, x) == (x - a.x) * Quotient(c, a, m, x) + (Cubic(c, a.x) - a.y * a.y)
  {
    var d := x - a.x;
    CubeDifference(x, a.x, c.alpha);
    SquareDifference(m * d, a.y);
    TakeOut(d, m, x * x + x * a.x + a.x * a.x + c.alpha, m * d + 2 * a.y);
  }

  lemma SecondRoot(c: Curve, a: Point, m: int, x: int, x2: int)
    ensures Quotient(c, a, m, x) == (x - x2) * (x - (m * m - a.x - x2)) + Quotient(c, a, m, x2)
  {
    var d := x - x2;
    assert x * x - x2 * x2 == d * (x + x2);
    assert x * a.x - x2 * a.x == d * a.x;
    assert m * (m * (x - a.x) + 2 * a.y) - m * (m * (x2 - a.x) + 2 * a.y) == (m * m) * d by {
      Slopes(m, x - a.x, x2 - a.x, 2 * a.y);
    }
    assert d * (x + x2) + d * a.x - d * (m * m) == d * (x + x2 + a.x - m * m);
  }

  lemma Slopes(m: int, u: int, v: int, y: int)
    ensures m * (m * u + y) - m * (m * v + y) == (m * m) * (u - v)
  {
    assert m * (m * u + y) == (m * m) * u + m * y && m * (m * v + y) == (m * m) * v + m * y;
  }

  lemma OnCurveIs(c: Curve, a: Point)
    requires c.p > 0
    ensures OnCurve(a, c) <==> Cong(a.y * a.y, Cubic(c, a.x), c.p)
  {
    CongSelf(a.x * a.x * a.x, c.p);
    CongAdd((a.x * a.x * a.x) % c.p, a.x * a.x * a.x, c.alpha * a.x + c.beta, c.alpha * a.x + c.beta, c.p);
  }

  /** A line through a point of the curve with a second root `x2` has the third root m^2 - a.x - x2. */
  lemma LineMeets(c: Curve, a: Point, m: int, x2: int, x3: int)
    requires c.p > 0 && OnCurve(a, c) && Cong(Quotient(c, a, m, x2), 0, c.p) && Cong(x3, m * m - a.x - x2, c.p)
    ensures Meets(c, a, m, a.x, x2, x3)
  {
    forall x ensures Cong(Gap(c, a, m, x), (x - a.x) * ((x - x2) * (x - x3)), c.p) { GapFactors(c, a, m, x2, x3, x); }
  }

  lemma GapFactors(c: Curve, a: Point, m: int, x2: int, x3: int, x: int)
    requires c.p > 0 && OnCurve(a, c) && Cong(Quotient(c, a, m, x2), 0, c.p) && Cong(x3, m * m - a.x - x2, c.p)
    ensures Cong(Gap(c, a, m, x), (x - a.x) * ((x - x2) * (x - x3)), c.p)
  {
    var q, z := Quotient(c, a, m, x), m * m - a.x - x2;
    SecondRoot(c, a, m, x, x2);
    CongAdd(x, x, x3, z, c.p);
    CongTimes(x - x3, x - z, x - x2, c.p);
    CongAdd((x - x2) * (x - z), (x - x2) * (x - x3), Quotient(c, a, m, x2), 0, c.p);
    CongTimes(q, (x - x2) * (x - x3), x - a.x, c.p);
    FirstRoot(c, a, m, x);
    OnCurveIs(c, a);
    CongAdd(Cubic(c, a.x), a.y * a.y, a.y * a.y, a.y * a.y, c.p);
    CongAdd((x - a.x) * q, (x - a.x) * ((x - x2) * (x - x3)), Cubic(c, a.x) - a.y * a.y, 0, c.p);
  }

  // ---------------------------------------------------------------------------
  // The third point
  // ---------------------------------------------------------------------------

  lemma NegSquare(u: int, y: int, p: int)
    requires p > 0 && y == (-u) % p
    ensures Cong(-y, u, p) && Cong(y * y, u * u, p)
  {
    CongSelf(-u, p);
    CongAdd(0, 0, y, -u, p);
    CongMul(y, -u, y, -u, p);
    assert (-u) * (-u) == u * u;
  }

  /** The mirrored third point is on the curve. */
  lemma ThirdPoint(c: Curve, a: Point, m: int, x2: int, r: Point)
    requires c.p > 0 && Meets(c, a, m, a.x, x2, r.x) && r.y == (-Line(a, m, r.x)) % c.p
    ensures OnCurve(r, c) && Cong(-r.y, Line(a, m, r.x), c.p)
  {
    var u := Line(a, m, r.x);
    NegSquare(u, r.y, c.p);
    assert Cong(Gap(c, a, m, r.x), (r.x - a.x) * ((r.x - x2) * (r.x - r.x)), c.p);
    assert (r.x - a.x) * ((r.x - x2) * 0) == 0;
    CongAdd(Cubic(c, r.x) - u * u, 0, u * u, u * u, c.p);
    OnCurveIs(c, r);
  }

  lemma SecondOnLine(c: Curve, a: Point, b: Point, m: int)
    requires Prime(c.p) && OnCurve(a, c) && OnCurve(b, c) && (a.x - b.x) % c.p != 0
    requires Cong((a.x - b.x) * m, a.y - b.y, c.p)
    ensures Cong(Line(a, m, b.x), b.y, c.p) && Cong(Quotient(c, a, m, b.x), 0, c.p)
  {
    var u, q := Line(a, m, b.x), Quotient(c, a, m, b.x);
    assert u == a.y - (a.x - b.x) * m;
    CongAdd(a.y, a.y, (a.x - b.x) * m, a.y - b.y, c.p);
    CongMul(u, b.y, u, b.y, c.p);
    OnCurveIs(c, a);
    OnCurveIs(c, b);
    CongAdd(Cubic(c, b.x), b.y * b.y, u * u, b.y * b.y, c.p);
    CongAdd(Cubic(c, a.x), a.y * a.y, a.y * a.y, a.y * a.y, c.p);
    FirstRoot(c, a, m, b.x);
    CongAdd(Gap(c, a, m, b.x), 0, Cubic(c, a.x) - a.y * a.y, 0, c.p);
    assert (b.x - a.x) * q == -((a.x - b.x) * q);
    CongAdd(0, 0, (b.x - a.x) * q, 0, c.p);
    ProductZero(a.x - b.x, q, c.p);
  }

  /** `r` is the mirror image of the third point on the line through `a` with slope `m` and the roots a.x and `x2`. */
  ghost predicate IsThird(c: Curve, a: Point, m: int, x2: int, r: Point)
    requires c.p > 0
  {
    && OnCurve(r, c) && ReducedPoint(r, c.p)
    && Cong(-r.y, Line(a, m, r.x), c.p) && Meets(c, a, m, a.x, x2, r.x)
  }

  lemma ThirdFrom(c: Curve, a: Point, m: int, x2: int, r: Point)
    requires c.p > 0 && OnCurve(a, c) && Cong(Quotient(c, a, m, x2), 0, c.p)
    requires r.x == (m * m - a.x - x2) % c.p && r.y == (m * (a.x - r.x) - a.y) % c.p
    ensures IsThird(c, a, m, x2, r)
  {
    CongSelf(m * m - a.x - x2, c.p);
    LineMeets(c, a, m, x2, r.x);
    Mirrored(a, m, r.x);
    ThirdPoint(c, a, m, x2, r);
  }

  lemma AddFormula(a: Point, b: Point, p: int, m: int, r: Point)
    requires p > 0 && (a.x - b.x) % p != 0 && DivMod(a.y - b.y, a.x - b.x, p) == Some(m)
    requires r.x == (m * m - a.x - b.x) % p && r.y == (m * (a.x - r.x) - a.y) % p
    ensures EcAdd(a, b, p) == Some(r)
  {}

  lemma AddFails(a: Point, b: Point, p: int)
    requires p > 0 && (a.x - b.x) % p == 0
    ensures EcAdd(a, b, p) == None
  {}

  lemma ChordOf(c: Curve, a: Point, b: Point) returns (m: int, r: Point)
    requires Prime(c.p) && OnCurve(a, c) && OnCurve(b, c) && (a.x - b.x) % c.p != 0
    ensures EcAdd(a, b, c.p) == Some(r) && Cong(Line(a, m, b.x), b.y, c.p) && IsThird(c, a, m, b.x, r)
  {
    DivModCorrect(a.y - b.y, a.x - b.x, c.p);
    m := DivMod(a.y - b.y, a.x - b.x, c.p).value;
    var x := (m * m - a.x - b.x) % c.p;
    r := Point(x, (m * (a.x - x) - a.y) % c.p);
    SecondOnLine(c, a, b, m);
    ThirdFrom(c, a, m, b.x, r);
    AddFormula(a, b, c.p, m, r);
  }

  /** ec_add of two points of the curve fails exactly on equal x, and otherwise gives the mirrored third
      point of the line through both. */
  lemma AddIsChord(c: Curve, a: Point, b: Point) returns (m: int)
    requires Prime(c.p) && OnCurve(a, c) && OnCurve(b, c)
    ensures EcAdd(a, b, c.p).None? <==> Cong(a.x, b.x, c.p)
    ensures EcAdd(a, b, c.p).Some? ==>
      Cong(Line(a, m, b.x), b.y, c.p) && IsThird(c, a, m, b.x, EcAdd(a, b, c.p).value)
  {
    m := 0;
    DifferIs(a.x, b.x, c.p);
    if (a.x - b.x) % c.p == 0 {
      AddFails(a, b, c.p);
    } else {
      var r;
      m, r := ChordOf(c, a, b);
    }
  }

  lemma Mirrored(a: Point, m: int, x: int)
    ensures m * (a.x - x) - a.y == -Line(a, m, x)
  {}

  lemma DifferIs(a: int, b: int, p: int)
    requires p > 0
    ensures (a - b) % p == 0 <==> Cong(a, b, p)
  {
    if (a - b) % p == 0 { CongAdd(a - b, 0, b, b, p); }
    if Cong(a, b, p) { CongAdd(a, b, b, b, p); }
  }

  lemma TangentRoot(c: Curve, a: Point, m: int)
    requires c.p > 0 && Cong((2 * a.y) * m, 3 * a.x * a.x + c.alpha, c.p)
    ensures Cong(Quotient(c, a, m, a.x), 0, c.p)
  {
    assert m * (m * 0 + 2 * a.y) == (2 * a.y) * m;
    assert Quotient(c, a, m, a.x) == 3 * a.x * a.x + c.alpha - (2 * a.y) * m;
    CongAdd(3 * a.x * a.x + c.alpha, 3 * a.x * a.x + c.alpha, (2 * a.y) * m, 3 * a.x * a.x + c.alpha, c.p);
  }

  lemma DoubleFormula(a: Point, alpha: int, p: int, m: int, r: Point)
    requires p > 0 && a.y % p != 0 && DivMod(3 * a.x * a.x + alpha, 2 * a.y, p) == Some(m)
    requires r.x == (m * m - 2 * a.x) % p && r.y == (m * (a.x - r.x) - a.y) % p
    ensures EcDouble(a, alpha, p) == Some(r)
  {}

  lemma DoubleFails(a: Point, alpha: int, p: int)
    requires p > 0 && (a.y % p == 0 || DivMod(3 * a.x * a.x + alpha, 2 * a.y, p).None?)
    ensures EcDouble(a, alpha, p) == None
  {}

  lemma TangentOf(c: Curve, a: Point) returns (m: int, r: Point)
    requires Prime(c.p) && OnCurve(a, c) && (2 * a.y) % c.p != 0
    ensures EcDouble(a, c.alpha, c.p) == Some(r) && Cong((2 * a.y) * m, 3 * a.x * a.x + c.alpha, c.p) && IsThird(c, a, m, a.x, r)
  {
    DivModCorrect(3 * a.x * a.x + c.alpha, 2 * a.y, c.p);
    m := DivMod(3 * a.x * a.x + c.alpha, 2 * a.y, c.p).value;
    var x := (m * m - 2 * a.x) % c.p;
    r := Point(x, (m * (a.x - x) - a.y) % c.p);
    TangentRoot(c, a, m);
    ThirdFrom(c, a, m, a.x, r);
    if a.y % c.p == 0 { CongTimes(a.y, 0, 2, c.p); }
    DoubleFormula(a, c.alpha, c.p, m, r);
  }

  lemma NoTangent(c: Curve, a: Point)
    requires Prime(c.p) && (2 * a.y) % c.p == 0
    ensures EcDouble(a, c.alpha, c.p) == None
  {
    DivModCorrect(3 * a.x * a.x + c.alpha, 2 * a.y, c.p);
    DoubleFails(a, c.alpha, c.p);
  }

  /** ec_double fails exactly where 2y = 0, and otherwise gives the mirrored third point of the tangent. */
  lemma DoubleIsTangent(c: Curve, a: Point) returns (m: int)
    requires Prime(c.p) && OnCurve(a, c)
    ensures EcDouble(a, c.alpha, c.p).None? <==> Cong(2 * a.y, 0, c.p)
    ensures EcDouble(a, c.alpha, c.p).Some? ==>
      && Cong((2 * a.y) * m, 3 * a.x * a.x + c.alpha, c.p)
      && IsThird(c, a, m, a.x, EcDouble(a, c.alpha, c.p).value)
  {
    m := 0;
    if Cong(2 * a.y, 0, c.p) {
      NoTangent(c, a);
    } else {
      var r;
      m, r := TangentOf(c, a);
    }
  }

  // ---------------------------------------------------------------------------
  // There is one third point
  // ---------------------------------------------------------------------------

  /** A place where the line does not meet the curve in the two known roots. */
  lemma Elsewhere(a: int, b: int, p: int) returns (x: int)
    requires p > 2
    ensures (x - a) % p != 0 && (x - b) % p != 0
  {
    if (a + 1 - b) % p == 0 {
      x := a - 1;
      if (a - 1 - b) % p == 0 { CongAdd(a + 1 - b, 0, a - 1 - b, 0, p); }
      DivUnique(-1, p, -1, p - 1);
      DivUnique(2, p, 0, 2);
    } else {
      x := a + 1;
      DivUnique(1, p, 0, 1);
    }
  }

  lemma ProductDifference(u: int, v: int, s: int, t: int)
    ensures u * (v * s) - u * (v * t) == u * (v * (s - t))
  {}

  lemma SameRoot(c: Curve, a: Point, m: int, x2: int, r: int, s: int)
    requires Prime(c.p) && c.p > 2 && Meets(c, a, m, a.x, x2, r) && Meets(c, a, m, a.x, x2, s)
    ensures (r - s) % c.p == 0
  {
    var x := Elsewhere(a.x, x2, c.p);
    var g := Gap(c, a, m, x);
    CongApart((x - a.x) * ((x - x2) * (x - s)), (x - a.x) * ((x - x2) * (x - r)), c.p);
    ProductDifference(x - a.x, x - x2, x - s, x - r);
    ProductZero(x - a.x, (x - x2) * ((x - s) - (x - r)), c.p);
    ProductZero(x - x2, (x - s) - (x - r), c.p);
  }

  /** The third point is determined by the line and its other two roots. */
  lemma ThirdUnique(c: Curve, a: Point, m: int, x2: int, r: Point, s: Point)
    requires Prime(c.p) && c.p > 2 && IsThird(c, a, m, x2, r) && IsThird(c, a, m, x2, s)
    ensures r == s
  {
    SameRoot(c, a, m, x2, r.x, s.x);
    SameResidue(r.x, s.x, c.p);
    CongApart(-s.y, -r.y, c.p);
    SameResidue(r.y, s.y, c.p);
  }
}
