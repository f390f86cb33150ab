/**
 The hypotheses `IsGroup`, `IsScheme` and `Ideal` can be met: a curve with five points, the scheme
 over it, and a coding of integer lists by even numbers. (`CollisionFree` is met in `PairingHash`.)
 */
module Witnesses {
  import opened Common
  import opened NumberTheory
  import opened C = Curve
  import Ecdsa
  import OutputRoot
  import PairingHash

  // ---------------------------------------------------------------------------
  // A curve
  // ---------------------------------------------------------------------------

  /** y^2 = x^3 + x + 1 over GF(7): four points and infinity. */
  ghost predicate IsSmall(c: Curve) {
    c.p == 7 && c.alpha == 1 && c.beta == 1 && c.n == 5
  }

  /** `k` times (0, 1), for k in 1 .. 4. */
  function Table(k: int): Point {
    if k == 1 then Point(0, 1) else if k == 2 then Point(2, 5) else if k == 3 then Point(2, 2) else Point(0, 6)
  }

  /** The multiples of (0, 1). */
  function Multiple(a: int): Point {
    Table(a % 5)
  }

  lemma SmallPrimes()
    ensures Prime(5) && Prime(7)
  {
    assert 5 % 2 != 0 && 5 % 3 != 0 && 5 % 4 != 0;
    assert 7 % 2 != 0 && 7 % 3 != 0 && 7 % 4 != 0 && 7 % 5 != 0 && 7 % 6 != 0;
  }

  /** Doubling with the slope `m`, the arithmetic spelled out. */
  lemma DoubleWith(a: Point, alpha: int, p: int, m: int, num: int, den: int, b: Point)
    requires Prime(p) && a.y % p != 0 && den == 2 * a.y && num == 3 * a.x * a.x + alpha
    requires den % p != 0 && 0 <= m < p && Cong(den * m, num, p)
    requires b.x == (m * m - 2 * a.x) % p && b.y == (m * (a.x - b.x) - a.y) % p
    ensures EcDouble(a, alpha, p) == Some(b)
  {
    DivModUnique(num, den, p, m);
  }

  /** Adding with the slope `m`. */
  lemma AddWith(a: Point, b: Point, p: int, m: int, num: int, den: int, r: Point)
    requires Prime(p) && den == a.x - b.x && num == a.y - b.y
    requires den % p != 0 && 0 <= m < p && Cong(den * m, num, p)
    requires r.x == (m * m - a.x - b.x) % p && r.y == (m * (a.x - r.x) - a.y) % p
    ensures EcAdd(a, b, p) == Some(r)
  {
    DivModUnique(num, den, p, m);
  }

  lemma DoubleSlope(a: Point, m: int, b: Point)
    requires 0 < a.y < 7 && 0 <= m < 7 && (2 * a.y * m) % 7 == (3 * a.x * a.x + 1) % 7
    requires b.x == (m * m - 2 * a.x) % 7 && b.y == (m * (a.x - b.x) - a.y) % 7
    ensures EcDouble(a, 1, 7) == Some(b)
  {
    SmallPrimes();
    DoubleWith(a, 1, 7, m, 3 * a.x * a.x + 1, 2 * a.y, b);
  }

  lemma AddSlope(a: Point, b: Point, m: int, r: Point)
    requires 0 <= m < 7 && (a.x - b.x) % 7 != 0 && ((a.x - b.x) * m) % 7 == (a.y - b.y) % 7
    requires r.x == (m * m - a.x - b.x) % 7 && r.y == (m * (a.x - r.x) - a.y) % 7
    ensures EcAdd(a, b, 7) == Some(r)
  {
    SmallPrimes();
    AddWith(a, b, 7, m, a.y - b.y, a.x - b.x, r);
  }

  lemma DoubleAt(k: int, l: int, m: int)
    requires 0 < Table(k).y < 7 && 0 <= m < 7 && (2 * Table(k).y * m) % 7 == (3 * Table(k).x * Table(k).x + 1) % 7
    requires Table(l).x == (m * m - 2 * Table(k).x) % 7 && Table(l).y == (m * (Table(k).x - Table(l).x) - Table(k).y) % 7
    ensures EcDouble(Table(k), 1, 7) == Some(Table(l))
  {
    DoubleSlope(Table(k), m, Table(l));
  }

  lemma AddAt(j: int, k: int, l: int, m: int)
    requires 0 <= m < 7 && (Table(j).x - Table(k).x) % 7 != 0
    requires ((Table(j).x - Table(k).x) * m) % 7 == (Table(j).y - Table(k).y) % 7
    requires Table(l).x == (m * m - Table(j).x - Table(k).x) % 7 && Table(l).y == (m * (Table(j).x - Table(l).x) - Table(j).y) % 7
    ensures EcAdd(Table(j), Table(k), 7) == Some(Table(l))
  {
    AddSlope(Table(j), Table(k), m, Table(l));
  }

  lemma TableDoubleLow(k: int, l: int)
    requires (k == 1 || k == 4) && l == (2 * k) % 5
    ensures EcDouble(Table(k), 1, 7) == Some(Table(l))
  {
    DoubleAt(k, l, if k == 1 then 4 else 3);
  }

  lemma TableDoubleHigh(k: int, l: int)
    requires (k == 2 || k == 3) && l == (2 * k) % 5
    ensures EcDouble(Table(k), 1, 7) == Some(Table(l))
  {
    DoubleAt(k, l, if k == 2 then 2 else 5);
  }

  lemma TableDouble(k: int, l: int)
    requires 1 <= k <= 4 && l == (2 * k) % 5
    ensures EcDouble(Table(k), 1, 7) == Some(Table(l))
  {
    if k == 1 || k == 4 { TableDoubleLow(k, l); } else { TableDoubleHigh(k, l); }
  }

  lemma TableAdd1(j: int, k: int, l: int)
    requires j == 1 && (k == 2 || k == 3) && l == (j + k) % 5
    ensures EcAdd(Table(j), Table(k), 7) == Some(Table(l))
  {
    AddAt(j, k, l, if k == 2 then 2 else 4);
  }

  lemma TableAdd4(j: int, k: int, l: int)
    requires j == 4 && (k == 2 || k == 3) && l == (j + k) % 5
    ensures EcAdd(Table(j), Table(k), 7) == Some(Table(l))
  {
    AddAt(j, k, l, if k == 2 then 3 else 5);
  }

  lemma TableAdd2(j: int, k: int, l: int)
    requires j == 2 && (k == 1 || k == 4) && l == (j + k) % 5
    ensures EcAdd(Table(j), Table(k), 7) == Some(Table(l))
  {
    AddAt(j, k, l, if k == 1 then 2 else 3);
  }

  lemma TableAdd3(j: int, k: int, l: int)
    requires j == 3 && (k == 1 || k == 4) && l == (j + k) % 5
    ensures EcAdd(Table(j), Table(k), 7) == Some(Table(l))
  {
    AddAt(j, k, l, if k == 1 then 4 else 5);
  }

  lemma TableAdd(j: int, k: int, l: int)
    requires 1 <= j <= 4 && 1 <= k <= 4 && j != k && j + k != 5 && l == (j + k) % 5
    ensures EcAdd(Table(j), Table(k), 7) == Some(Table(l))
  {
    if j == 1 { TableAdd1(j, k, l); }
    else if j == 2 { TableAdd2(j, k, l); }
    else if j == 3 { TableAdd3(j, k, l); }
    else { TableAdd4(j, k, l); }
  }

  lemma SumResidue(a: int, b: int)
    ensures (a % 5 + b % 5) % 5 == (a + b) % 5 && (2 * (a % 5)) % 5 == (2 * a) % 5
  {
    CongSelf(a, 5);
    CongSelf(b, 5);
    CongAdd(a % 5, a, b % 5, b, 5);
    CongTimes(a % 5, a, 2, 5);
  }

  lemma SmallDoubles(a: int)
    requires a % 5 != 0
    ensures EcDouble(Multiple(a), 1, 7) == Some(Multiple(2 * a))
  {
    SumResidue(a, 0);
    TableDouble(a % 5, (2 * a) % 5);
  }

  lemma SmallSums(a: int, b: int)
    requires a % 5 != 0 && b % 5 != 0 && Multiple(a).x != Multiple(b).x
    ensures EcAdd(Multiple(a), Multiple(b), 7) == Some(Multiple(a + b))
  {
    SumResidue(a, b);
    TableAdd(a % 5, b % 5, (a + b) % 5);
  }

  lemma SmallPoints(c: Curve, a: int)
    requires IsSmall(c) && Finite(a, c.n)
    ensures OnCurve(Multiple(a), c) && ReducedPoint(Multiple(a), c.p) && Multiple(-a) == EcNeg(Multiple(a), c.p)
  {
    assert (-a) % 5 == 5 - a % 5;
  }

  lemma SmallSame(c: Curve, a: int, b: int)
    requires IsSmall(c)
    ensures Cong(a, b, c.n) ==> Multiple(a) == Multiple(b)
    ensures Finite(a, c.n) && Finite(b, c.n) && Multiple(a) == Multiple(b) ==> Cong(a, b, c.n)
  {}

  ghost predicate AreMultiples(pt: int -> Point) {
    forall a {:trigger pt(a)} :: pt(a) == Multiple(a)
  }

  lemma SmallCong(c: Curve, pt: int -> Point)
    requires IsSmall(c) && AreMultiples(pt)
    ensures Distinct(c, pt)
  {
    forall a, b
      ensures Cong(a, b, c.n) ==> pt(a) == pt(b)
      ensures Finite(a, c.n) && Finite(b, c.n) && pt(a) == pt(b) ==> Cong(a, b, c.n)
    {
      SmallSame(c, a, b);
    }
  }

  lemma SmallOnCurve(c: Curve, pt: int -> Point)
    requires IsSmall(c) && AreMultiples(pt)
    ensures OnTheCurve(c, pt)
  {
    forall a | Finite(a, c.n)
      ensures OnCurve(pt(a), c) && ReducedPoint(pt(a), c.p) && pt(-a) == EcNeg(pt(a), c.p)
    {
      SmallPoints(c, a);
    }
  }

  lemma SmallDoubling(c: Curve, pt: int -> Point)
    requires IsSmall(c) && AreMultiples(pt)
    ensures Doubled(c, pt)
  {
    forall a | Finite(a, c.n) ensures EcDouble(pt(a), c.alpha, c.p) == Some(pt(2 * a)) { SmallDoubles(a); }
  }

  lemma SmallAdding(c: Curve, pt: int -> Point)
    requires IsSmall(c) && AreMultiples(pt)
    ensures Added(c, pt)
  {
    forall a, b | Finite(a, c.n) && Finite(b, c.n) && pt(a).x != pt(b).x
      ensures EcAdd(pt(a), pt(b), c.p) == Some(pt(a + b))
    {
      SmallSums(a, b);
    }
  }

  lemma SmallIsGroup(c: Curve, pt: int -> Point)
    requires IsSmall(c) && AreMultiples(pt)
    ensures IsGroup(c, pt)
  {
    SmallPrimes();
    SmallCong(c, pt);
    SmallOnCurve(c, pt);
    SmallDoubling(c, pt);
    SmallAdding(c, pt);
  }

  lemma SmallSquare(y: int)
    requires 0 <= y < 7
    ensures (y * y) % 7 == 1 ==> y == 1 || y == 6
    ensures (y * y) % 7 == 4 ==> y == 2 || y == 5
    ensures (y * y) % 7 != 3 && (y * y) % 7 != 5 && (y * y) % 7 != 6
  {
    assert y == 0 || y == 1 || y == 2 || y == 3 || y == 4 || y == 5 || y == 6;
  }

  lemma SmallCube(x: int)
    requires 0 <= x < 7
    ensures var r := ((x * x * x) % 7 + x + 1) % 7;
      if x == 0 then r == 1 else if x == 2 then r == 4 else r == 3 || r == 5 || r == 6
  {
    assert x == 0 || x == 1 || x == 2 || x == 3 || x == 4 || x == 5 || x == 6;
  }

  lemma SmallExhausts(c: Curve, pt: int -> Point)
    requires IsSmall(c) && AreMultiples(pt)
    ensures Ecdsa.Exhausts(c, pt)
  {
    forall a: Point | ReducedPoint(a, c.p) && OnCurve(a, c) ensures exists q :: Finite(q, c.n) && pt(q) == a {
      SmallSquare(a.y);
      SmallCube(a.x);
      var q := if a.x == 0 then (if a.y == 1 then 1 else 4) else if a.y == 5 then 2 else 3;
      assert pt(q) == a && Finite(q, c.n);
    }
  }

  /** The hypotheses of the curve and of the signature scheme hold of a curve, a scheme and a group. */
  lemma SmallIsScheme()
    ensures var c := Curve(7, 1, 1, 5);
      IsGroup(c, Multiple) && Ecdsa.Exhausts(c, Multiple)
      && Ecdsa.IsScheme(Ecdsa.Scheme(c, 2, Multiple(1), Multiple(1)), Multiple, 1)
  {
    SmallIsGroup(Curve(7, 1, 1, 5), Multiple);
    SmallExhausts(Curve(7, 1, 1, 5), Multiple);
  }

  // ---------------------------------------------------------------------------
  // A hash of lists
  // ---------------------------------------------------------------------------

  function Code(a: seq<int>): nat {
    if a == [] then 0 else PairingHash.Pair(PairingHash.ZigZag(a[0]), Code(a[1..]))
  }

  lemma {:induction false} CodeInjective(a: seq<int>, b: seq<int>)
    requires Code(a) == Code(b)
    ensures a == b
    decreases |a|
  {
    if a != [] && b != [] {
      PairingHash.PairInjective(PairingHash.ZigZag(a[0]), Code(a[1..]), PairingHash.ZigZag(b[0]), Code(b[1..]));
      CodeInjective(a[1..], b[1..]);
      assert a == [a[0]] + a[1..] && b == [b[0]] + b[1..];
    }
  }

  lemma EvenCodeIsIdeal()
    ensures OutputRoot.Ideal((a: seq<int>) => 2 * Code(a))
  {
    var K := (a: seq<int>) => 2 * Code(a);
    forall a, b | K(a) == K(b) ensures a == b { CodeInjective(a, b); }
  }
}
