/**
 Affine elliptic curve arithmetic (src/starkware/crypto/signature/math_utils.py) and its total
 variants (src/starkware/python/math_utils.py).

 That the points of the curve form a group of prime order under the chord and tangent formulas is a
 hypothesis, `IsGroup`. It is stated through `pt`, the multiples of a generator.
 */
module Curve {
  import opened Common
  import opened NumberTheory

  datatype Point = Point(x: int, y: int)

  /** y^2 = x^3 + alpha * x + beta over GF(p); `n` is the number of its points. */
  datatype Curve = Curve(p: int, alpha: int, beta: int, n: int)

  // None is a failed assertion.

  function EcAdd(a: Point, b: Point, p: int): Option<Point>
    requires p > 0
  {
    if (a.x - b.x) % p == 0 then None
    else
      var m := DivMod(a.y - b.y, a.x - b.x, p);
      if m.None? then None
      else
        var x := (m.value * m.value - a.x - b.x) % p;
        Some(Point(x, (m.value * (a.x - x) - a.y) % p))
  }

  function EcNeg(a: Point, p: int): Point
    requires p > 0
  {
    Point(a.x, (-a.y) % p)
  }

  function EcDouble(a: Point, alpha: int, p: int): Option<Point>
    requires p > 0
  {
    if a.y % p == 0 then None
    else
      var m := DivMod(3 * a.x * a.x + alpha, 2 * a.y, p);
      if m.None? then None
      else
        var x := (m.value * m.value - 2 * a.x) % p;
        Some(Point(x, (m.value * (a.x - x) - a.y) % p))
  }

  /** ec_mult; the source assumes a positive multiplier. */
  function EcMult(m: nat, a: Point, alpha: int, p: int): Option<Point>
    requires m > 0 && p > 0
    decreases m
  {
    if m == 1 then Some(a)
    else if m % 2 == 0 then
      var d := EcDouble(a, alpha, p);
      if d.None? then None else EcMult(m / 2, d.value, alpha, p)
    else
      var r := EcMult(m - 1, a, alpha, p);
      if r.None? then None else EcAdd(r.value, a, p)
  }

  datatype AnyPoint = Infinity | Affine(point: Point)

  /** ec_safe_add */
  function SafeAdd(a: AnyPoint, b: AnyPoint, alpha: int, p: int): Option<AnyPoint>
    requires p > 0
  {
    if a.Infinity? then Some(b)
    else if b.Infinity? then Some(a)
    else
      var (x1, y1) := (a.point.x % p, a.point.y % p);
      var (x2, y2) := (b.point.x % p, b.point.y % p);
      if x1 == x2 && y1 == (p - y2) % p then Some(Infinity)
      else
        var r := if x1 == x2 then EcDouble(Point(x1, y1), alpha, p)
                 else EcAdd(Point(x1, y1), Point(x2, y2), p);
        if r.None? then None else Some(Affine(r.value))
  }

  /** ec_safe_mult */
  function SafeMult(m: nat, a: AnyPoint, alpha: int, p: int): Option<AnyPoint>
    requires p > 0
    decreases m
  {
    if m == 0 then Some(Infinity)
    else if m == 1 then Some(a)
    else if m % 2 == 0 then
      var d := SafeAdd(a, a, alpha, p);
      if d.None? then None else SafeMult(m / 2, d.value, alpha, p)
    else
      var r := SafeMult(m - 1, a, alpha, p);
      if r.None? then None else SafeAdd(r.value, a, alpha, p)
  }

  /** is_point_on_curve */
  predicate OnCurve(a: Point, c: Curve)
    requires c.p > 0
  {
    (a.y * a.y) % c.p == ((a.x * a.x * a.x) % c.p + c.alpha * a.x + c.beta) % c.p
  }

  predicate ReducedPoint(a: Point, p: int) {
    0 <= a.x < p && 0 <= a.y < p
  }

  // ---------------------------------------------------------------------------
  // The group
  // ---------------------------------------------------------------------------

  /** `a` times the generator is not the point at infinity. */
  predicate Finite(a: int, n: int)
    requires n > 0
  {
    a % n != 0
  }

  /** The multiples of the generator are as many points as the order says. */
  ghost predicate Distinct(c: Curve, pt: int -> Point)
    requires c.n > 0
  {
    && (forall a, b {:trigger Cong(a, b, c.n)} :: Cong(a, b, c.n) ==> pt(a) == pt(b))
    && (forall a, b {:trigger Cong(a, b, c.n)} ::
          Finite(a, c.n) && Finite(b, c.n) && pt(a) == pt(b) ==> Cong(a, b, c.n))
  }

  ghost predicate OnTheCurve(c: Curve, pt: int -> Point)
    requires c.p > 0 && c.n > 0
  {
    && (forall a {:trigger OnCurve(pt(a), c)} :: Finite(a, c.n) ==> OnCurve(pt(a), c) && ReducedPoint(pt(a), c.p))
    && (forall a {:trigger EcNeg(pt(a), c.p)} :: Finite(a, c.n) ==> pt(-a) == EcNeg(pt(a), c.p))
  }

  ghost predicate Doubled(c: Curve, pt: int -> Point)
    requires c.p > 0 && c.n > 0
  {
    forall a {:trigger EcDouble(pt(a), c.alpha, c.p)} ::
      Finite(a, c.n) ==> EcDouble(pt(a), c.alpha, c.p) == Some(pt(2 * a))
  }

  ghost predicate Added(c: Curve, pt: int -> Point)
    requires c.p > 0 && c.n > 0
  {
    forall a, b {:trigger EcAdd(pt(a), pt(b), c.p)} ::
      Finite(a, c.n) && Finite(b, c.n) && pt(a).x != pt(b).x ==> EcAdd(pt(a), pt(b), c.p) == Some(pt(a + b))
  }

  /** The multiples of the generator are distinct points that the formulas add, double and negate. */
  ghost predicate IsGroup(c: Curve, pt: int -> Point) {
    && Prime(c.p) && Prime(c.n) && c.n > 2
    && Distinct(c, pt) && OnTheCurve(c, pt) && Doubled(c, pt) && Added(c, pt)
  }

  lemma SamePoint(c: Curve, pt: int -> Point, a: int, b: int)
    requires IsGroup(c, pt)
    ensures Cong(a, b, c.n) ==> pt(a) == pt(b)
    ensures Finite(a, c.n) && Finite(b, c.n) && pt(a) == pt(b) ==> Cong(a, b, c.n)
  {}

  lemma PointFacts(c: Curve, pt: int -> Point, a: int)
    requires IsGroup(c, pt) && Finite(a, c.n)
    ensures OnCurve(pt(a), c) && ReducedPoint(pt(a), c.p) && pt(-a) == EcNeg(pt(a), c.p)
  {
    var _ := EcNeg(pt(a), c.p);
  }

  lemma NegFinite(a: int, n: int)
    requires n > 0
    ensures Finite(-a, n) <==> Finite(a, n)
  {
    if !Finite(a, n) { CongAdd(0, 0, a, 0, n); }
    if !Finite(-a, n) { CongAdd(0, 0, -a, 0, n); }
  }

  lemma DifferenceOfSquares(y: int, z: int)
    ensures (y - z) * (y + z) == y * y - z * z
  {}

  /** Residues with the same square are equal or opposite. */
  lemma SameSquare(y: int, z: int, p: int)
    requires Prime(p) && 0 <= y < p && 0 <= z < p && Cong(y * y, z * z, p)
    ensures y == z || y == (-z) % p
  {
    DifferenceOfSquares(y, z);
    CongAdd(y * y, z * z, z * z, z * z, p);
    if (y - z) % p == 0 {
      CongAdd(y - z, 0, z, z, p);
      DivUnique(y, p, 0, y);
      DivUnique(z, p, 0, z);
    } else {
      ProductZero(y - z, y + z, p);
      CongAdd(y + z, 0, z, z, p);
      DivUnique(y, p, 0, y);
    }
  }

  /** Two points share their x coordinate exactly when they are equal or opposite. */
  lemma SameX(c: Curve, pt: int -> Point, a: int, b: int)
    requires IsGroup(c, pt) && Finite(a, c.n) && Finite(b, c.n)
    ensures pt(a).x == pt(b).x <==> Cong(a, b, c.n) || Cong(a, -b, c.n)
  {
    PointFacts(c, pt, a);
    PointFacts(c, pt, b);
    NegFinite(b, c.n);
    SamePoint(c, pt, a, b);
    SamePoint(c, pt, a, -b);
    if pt(a).x == pt(b).x {
      SameSquare(pt(a).y, pt(b).y, c.p);
    }
  }

  lemma SumFinite(a: int, b: int, n: int)
    requires n > 0
    ensures Finite(a + b, n) <==> !Cong(a, -b, n)
  {
    if Cong(a, -b, n) { CongAdd(a, -b, b, b, n); }
    if !Finite(a + b, n) { CongAdd(a + b, 0, b, b, n); }
  }

  lemma ChordFails(a: Point, b: Point, p: int)
    requires p > 0 && a.x == b.x
    ensures EcAdd(a, b, p) == None
  {}

  lemma ChordIs(c: Curve, pt: int -> Point, a: int, b: int)
    requires IsGroup(c, pt) && Finite(a, c.n) && Finite(b, c.n) && pt(a).x != pt(b).x
    ensures EcAdd(pt(a), pt(b), c.p) == Some(pt(a + b))
  {}

  /** ec_add fails exactly on equal x coordinates. */
  lemma AddIs(c: Curve, pt: int -> Point, a: int, b: int)
    requires IsGroup(c, pt) && Finite(a, c.n) && Finite(b, c.n)
    ensures pt(a).x == pt(b).x ==> EcAdd(pt(a), pt(b), c.p) == None
    ensures pt(a).x != pt(b).x ==> EcAdd(pt(a), pt(b), c.p) == Some(pt(a + b)) && Finite(a + b, c.n)
  {
    if pt(a).x == pt(b).x {
      ChordFails(pt(a), pt(b), c.p);
    } else {
      ChordIs(c, pt, a, b);
      SameX(c, pt, a, b);
      SumFinite(a, b, c.n);
    }
  }

  lemma DoubleFinite(a: int, n: int)
    requires Prime(n) && n > 2 && Finite(a, n)
    ensures Finite(2 * a, n)
  {
    DivUnique(2, n, 0, 2);
    if !Finite(2 * a, n) { ProductZero(2, a, n); }
  }

  lemma DoubleIs(c: Curve, pt: int -> Point, a: int)
    requires IsGroup(c, pt) && Finite(a, c.n)
    ensures EcDouble(pt(a), c.alpha, c.p) == Some(pt(2 * a)) && Finite(2 * a, c.n)
  {
    DoubleFinite(a, c.n);
  }

  lemma TimesFinite(m: int, a: int, n: int)
    requires Prime(n) && 0 < m < n && Finite(a, n)
    ensures Finite(m * a, n)
  {
    DivUnique(m, n, 0, m);
    if !Finite(m * a, n) { ProductZero(m, a, n); }
  }

  /** The addition that ends an odd multiplication never meets equal x coordinates. */
  lemma OddStep(c: Curve, pt: int -> Point, m: int, a: int)
    requires IsGroup(c, pt) && Finite(a, c.n) && 3 <= m < c.n
    ensures Finite((m - 1) * a, c.n) && pt((m - 1) * a).x != pt(a).x
  {
    TimesFinite(m - 1, a, c.n);
    TimesFinite(m - 2, a, c.n);
    TimesFinite(m, a, c.n);
    assert (m - 1) * a - a == (m - 2) * a && (m - 1) * a + a == m * a;
    if Cong((m - 1) * a, a, c.n) { CongAdd((m - 1) * a, a, a, a, c.n); }
    if Cong((m - 1) * a, -a, c.n) { CongAdd((m - 1) * a, -a, a, a, c.n); }
    SameX(c, pt, (m - 1) * a, a);
  }

  lemma HalfTimes(m: nat, h: nat, a: int)
    requires m == 2 * h
    ensures h * (2 * a) == m * a
  {}

  lemma OneMore(m: int, a: int)
    ensures (m - 1) * a + a == m * a
  {}

  /** ec_mult cannot fail below the order, and multiplies. */
  lemma MultIs(c: Curve, pt: int -> Point, m: nat, a: int)
    requires IsGroup(c, pt) && Finite(a, c.n) && 0 < m < c.n
    ensures EcMult(m, pt(a), c.alpha, c.p) == Some(pt(m * a)) && Finite(m * a, c.n)
  {
    MultTo(c, pt, m, a, m * a);
  }

  lemma {:induction false} MultTo(c: Curve, pt: int -> Point, m: nat, a: int, ma: int)
    requires IsGroup(c, pt) && Finite(a, c.n) && 0 < m < c.n && ma == m * a
    ensures EcMult(m, pt(a), c.alpha, c.p) == Some(pt(ma)) && Finite(ma, c.n)
    decreases m
  {
    TimesFinite(m, a, c.n);
    if m > 1 && m % 2 == 0 {
      DoubleIs(c, pt, a);
      HalfTimes(m, m / 2, a);
      MultTo(c, pt, m / 2, 2 * a, ma);
    } else if m > 1 {
      OneMore(m, a);
      MultTo(c, pt, m - 1, a, ma - a);
      OddStep(c, pt, m, a);
      AddIs(c, pt, ma - a, a);
    }
  }

  /** `a` times the generator, with the point at infinity. */
  ghost function Elem(c: Curve, pt: int -> Point, a: int): AnyPoint
    requires c.n > 0
  {
    if Finite(a, c.n) then Affine(pt(a)) else Infinity
  }

  lemma NegResidue(y: int, p: int)
    requires 0 <= y < p
    ensures (-y) % p == (p - y) % p
  {
    ModShift(-y, 1, p);
  }

  lemma OppositePoint(c: Curve, pt: int -> Point, a: int, b: int)
    requires IsGroup(c, pt) && Finite(a, c.n) && Finite(b, c.n) && pt(a).x == pt(b).x
    ensures pt(a).y == (c.p - pt(b).y) % c.p <==> !Finite(a + b, c.n)
    ensures Finite(a + b, c.n) ==> Cong(a, b, c.n)
  {
    PointFacts(c, pt, b);
    NegResidue(pt(b).y, c.p);
    NegFinite(b, c.n);
    SamePoint(c, pt, a, -b);
    SumFinite(a, b, c.n);
    SameX(c, pt, a, b);
  }

  /** ec_safe_add never fails and is the group operation, for every two points. */
  lemma SafeAddIs(c: Curve, pt: int -> Point, a: int, b: int)
    requires IsGroup(c, pt)
    ensures SafeAdd(Elem(c, pt, a), Elem(c, pt, b), c.alpha, c.p) == Some(Elem(c, pt, a + b))
  {
    if !Finite(a, c.n) {
      CongAdd(a, 0, b, b, c.n);
      SamePoint(c, pt, a + b, b);
    } else if !Finite(b, c.n) {
      CongAdd(a, a, b, 0, c.n);
      SamePoint(c, pt, a + b, a);
    } else {
      SafeAddFinite(c, pt, a, b);
    }
  }

  lemma SafeAddFinite(c: Curve, pt: int -> Point, a: int, b: int)
    requires IsGroup(c, pt) && Finite(a, c.n) && Finite(b, c.n)
    ensures SafeAdd(Affine(pt(a)), Affine(pt(b)), c.alpha, c.p) == Some(Elem(c, pt, a + b))
  {
    var P, Q := pt(a), pt(b);
    PointFacts(c, pt, a);
    PointFacts(c, pt, b);
    DivUnique(P.x, c.p, 0, P.x);
    DivUnique(P.y, c.p, 0, P.y);
    DivUnique(Q.x, c.p, 0, Q.x);
    DivUnique(Q.y, c.p, 0, Q.y);
    if P.x == Q.x {
      OppositePoint(c, pt, a, b);
      if Finite(a + b, c.n) {
        DoubleIs(c, pt, a);
        CongAdd(a, a, a, b, c.n);
        SamePoint(c, pt, 2 * a, a + b);
      }
    } else {
      AddIs(c, pt, a, b);
    }
  }

  /** ec_safe_mult never fails and multiplies, for every multiplier and every point. */
  lemma SafeMultIs(c: Curve, pt: int -> Point, m: nat, a: int)
    requires IsGroup(c, pt)
    ensures SafeMult(m, Elem(c, pt, a), c.alpha, c.p) == Some(Elem(c, pt, m * a))
  {
    SafeMultTo(c, pt, m, a, m * a);
  }

  lemma {:induction false} SafeMultTo(c: Curve, pt: int -> Point, m: nat, a: int, ma: int)
    requires IsGroup(c, pt) && ma == m * a
    ensures SafeMult(m, Elem(c, pt, a), c.alpha, c.p) == Some(Elem(c, pt, ma))
    decreases m
  {
    if m > 1 && m % 2 == 0 {
      SafeAddIs(c, pt, a, a);
      HalfTimes(m, m / 2, a);
      SafeMultTo(c, pt, m / 2, 2 * a, ma);
    } else if m > 1 {
      OneMore(m, a);
      SafeMultTo(c, pt, m - 1, a, ma - a);
      SafeAddIs(c, pt, ma - a, a);
    }
  }
}
