/** Arithmetic modulo a prime: congruences, inverses, powers and Fermat's little theorem. */
module NumberTheory {
  import opened Common

  ghost predicate Prime(p: int) {
    p >= 2 && forall d :: 1 < d < p ==> p % d != 0
  }

  predicate Cong(a: int, b: int, p: int)
    requires p > 0
  {
    a % p == b % p
  }

  lemma ModShift(x: int, k: int, p: int)
    requires p > 0
    ensures (x + k * p) % p == x % p
  {
    assert x + k * p == (x / p + k) * p + x % p;
    DivUnique(x + k * p, p, x / p + k, x % p);
  }

  lemma CongSelf(a: int, p: int)
    requires p > 0
    ensures Cong(a % p, a, p)
  {
    ModShift(a % p, a / p, p);
  }

  /** Congruent numbers differ by a multiple of the modulus. */
  lemma CongDiff(a: int, b: int, p: int) returns (k: int)
    requires p > 0 && Cong(a, b, p)
    ensures a == b + k * p
  {
    k := a / p - b / p;
    assert a == (a / p) * p + a % p && b == (b / p) * p + b % p;
  }

  lemma CongAdd(a: int, b: int, c: int, d: int, p: int)
    requires p > 0 && Cong(a, b, p) && Cong(c, d, p)
    ensures Cong(a + c, b + d, p) && Cong(a - c, b - d, p)
  {
    var k := CongDiff(a, b, p);
    var l := CongDiff(c, d, p);
    assert a + c == (b + d) + (k + l) * p && a - c == (b - d) + (k - l) * p;
    ModShift(b + d, k + l, p);
    ModShift(b - d, k - l, p);
  }

  lemma CongMul(a: int, b: int, c: int, d: int, p: int)
    requires p > 0 && Cong(a, b, p) && Cong(c, d, p)
    ensures Cong(a * c, b * d, p)
  {
    CongTimes(a, b, c, p);
    CongTimes(c, d, b, p);
  }

  lemma ShiftTimes(b: int, k: int, p: int, c: int)
    ensures (b + k * p) * c == b * c + (k * c) * p
  {}

  /** A congruence times a number. */
  lemma CongTimes(a: int, b: int, c: int, p: int)
    requires p > 0 && Cong(a, b, p)
    ensures Cong(a * c, b * c, p) && Cong(c * a, c * b, p)
  {
    var k := CongDiff(a, b, p);
    ShiftTimes(b, k, p, c);
    ModShift(b * c, k * c, p);
    Commute(a, c);
    Commute(b, c);
  }

  lemma Commute(a: int, c: int)
    ensures a * c == c * a
  {}

  // ---------------------------------------------------------------------------
  // Extended Euclid
  // ---------------------------------------------------------------------------

  /** g = gcd(a, b) = a * x + b * y, with the cofactors a = g * u and b = g * v. */
  datatype Bezout = Bezout(g: nat, x: int, y: int, u: nat, v: nat)

  function ExtendedGcd(a: nat, b: nat): (r: Bezout)
    ensures r.g == a * r.x + b * r.y
    ensures a == r.g * r.u && b == r.g * r.v
    decreases b
  {
    if b == 0 then Bezout(a, 1, 0, 1, 0)
    else
      var s := ExtendedGcd(b, a % b);
      GcdStep(a, b, s);
      Bezout(s.g, s.y, s.x - (a / b) * s.y, (a / b) * s.u + s.v, s.u)
  }

  lemma GcdStep(a: nat, b: nat, s: Bezout)
    requires b > 0 && s.g == b * s.x + (a % b) * s.y && b == s.g * s.u && a % b == s.g * s.v
    ensures s.g == a * s.y + b * (s.x - (a / b) * s.y)
    ensures a == s.g * ((a / b) * s.u + s.v)
    ensures (a / b) * s.u + s.v >= 0
  {
    var q, r := a / b, a % b;
    assert a == q * b + r;
    assert a * s.y + b * (s.x - q * s.y) == b * s.x + r * s.y;
    assert s.g * (q * s.u + s.v) == q * (s.g * s.u) + s.g * s.v;
  }

  /** The inverse found by `igcdex(m, p)`; the check that the gcd is 1 is the caller's. */
  function Gcd(m: int, p: int): nat
    requires p > 0
  {
    ExtendedGcd(m % p, p).g
  }

  /** math_utils.div_mod: None where the assertion on the gcd fails. */
  function DivMod(n: int, m: int, p: int): Option<int>
    requires p > 0
  {
    if Gcd(m, p) != 1 then None else Some((n * ExtendedGcd(m % p, p).x) % p)
  }

  /** `div_mod` succeeds exactly when `m` is not a multiple of the prime, and then gives the
      x below the prime with m * x = n. */
  lemma DivModCorrect(n: int, m: int, p: int)
    requires Prime(p)
    ensures DivMod(n, m, p).Some? <==> m % p != 0
    ensures m % p != 0 ==> 0 <= DivMod(n, m, p).value < p && Cong(m * DivMod(n, m, p).value, n, p)
  {
    var r := ExtendedGcd(m % p, p);
    GcdOfPrime(m, p);
    if r.g == 1 {
      var a := m % p;
      assert a * r.x == 1 + (-r.y) * p;
      ModShift(1, -r.y, p);
      assert Cong(a * r.x, 1, p);
      CongSelf(n * r.x, p);
      CongSelf(m, p);
      CongMul(m, a, (n * r.x) % p, n * r.x, p);
      assert a * (n * r.x) == n * (a * r.x);
      CongMul(n, n, a * r.x, 1, p);
    }
  }

  lemma Factor(p: nat, g: nat, v: nat)
    requires p > 0 && p == g * v
    ensures 1 <= g <= p && v >= 1 && p % g == 0
  {
    assert g != 0 && v != 0;
    assert g * v >= g;
    DivUnique(p, g, v, 0);
  }

  lemma NotUnit(p: int, y: int)
    requires p >= 2
    ensures p * y != 1
  {
    if y >= 1 { assert p * y >= p; } else { assert p * y <= 0; }
  }

  lemma TooBig(p: nat, u: nat)
    requires u >= 1
    ensures p * u >= p
  {}

  lemma GcdOfPrime(m: int, p: int)
    requires Prime(p)
    ensures Gcd(m, p) == 1 <==> m % p != 0
  {
    var r := ExtendedGcd(m % p, p);
    Factor(p, r.g, r.v);
    if m % p == 0 {
      NotUnit(p, r.y);
    } else if r.g == p && r.u >= 1 {
      TooBig(p, r.u);
    }
  }

  /** Euclid's lemma. */
  lemma ProductZero(a: int, b: int, p: int)
    requires Prime(p) && (a * b) % p == 0 && a % p != 0
    ensures b % p == 0
  {
    DivModCorrect(1, a, p);
    var x := DivMod(1, a, p).value;
    CongMul(a * x, 1, b, b, p);
    assert (a * x) * b == x * (a * b);
    CongMul(x, x, a * b, 0, p);
  }

  // ---------------------------------------------------------------------------
  // Powers
  // ---------------------------------------------------------------------------

  function Pow(b: int, e: nat): int {
    if e == 0 then 1 else b * Pow(b, e - 1)
  }

  lemma {:induction false} PowAdd(b: int, m: nat, n: nat)
    ensures Pow(b, m + n) == Pow(b, m) * Pow(b, n)
  {
    if m > 0 {
      PowAdd(b, m - 1, n);
      assert b * (Pow(b, m - 1) * Pow(b, n)) == (b * Pow(b, m - 1)) * Pow(b, n);
    }
  }

  lemma MulSwap(a: int, b: int, x: int, y: int)
    ensures (a * b) * (x * y) == (a * x) * (b * y)
  {
    assert (a * b) * (x * y) == a * (b * (x * y));
    assert b * (x * y) == x * (b * y);
  }

  lemma {:induction false} PowProduct(a: int, b: int, n: nat)
    ensures Pow(a * b, n) == Pow(a, n) * Pow(b, n)
  {
    if n > 0 {
      PowProduct(a, b, n - 1);
      MulSwap(a, b, Pow(a, n - 1), Pow(b, n - 1));
    }
  }

  lemma {:induction false} PowOfPow(b: int, m: nat, n: nat)
    ensures 0 <= m * n && Pow(Pow(b, m), n) == Pow(b, m * n)
  {
    if n > 0 {
      PowOfPow(b, m, n - 1);
      assert m * n == m + m * (n - 1);
      PowAdd(b, m, m * (n - 1));
    }
  }

  lemma {:induction false} PowOne(n: nat)
    ensures Pow(1, n) == 1
  {
    if n > 0 { PowOne(n - 1); }
  }

  lemma {:induction false} CongPow(a: int, b: int, n: nat, p: int)
    requires p > 0 && Cong(a, b, p)
    ensures Cong(Pow(a, n), Pow(b, n), p)
  {
    if n > 0 {
      CongPow(a, b, n - 1, p);
      CongMul(a, b, Pow(a, n - 1), Pow(b, n - 1), p);
    }
  }

  lemma SameResidue(x: int, y: int, p: int)
    requires 0 <= x < p && 0 <= y < p && (x - y) % p == 0
    ensures x == y
  {
    CongAdd(x - y, 0, y, y, p);
    DivUnique(x, p, 0, x);
    DivUnique(y, p, 0, y);
  }

  lemma Distribute(m: int, x: int, y: int)
    ensures m * x - m * y == m * (x - y)
  {}

  lemma CancelFactor(m: int, x: int, y: int, p: int)
    requires Prime(p) && m % p != 0 && 0 <= x < p && 0 <= y < p && Cong(m * x, m * y, p)
    ensures x == y
  {
    CongApart(m * x, m * y, p);
    Distribute(m, x, y);
    ProductZero(m, x - y, p);
    SameResidue(x, y, p);
  }

  lemma CongApart(a: int, b: int, p: int)
    requires p > 0 && Cong(a, b, p)
    ensures (a - b) % p == 0
  {
    CongAdd(a, b, b, b, p);
  }

  /** `div_mod` finds the only solution below the prime. */
  lemma DivModUnique(n: int, m: int, p: int, x: int)
    requires Prime(p) && m % p != 0 && 0 <= x < p && Cong(m * x, n, p)
    ensures DivMod(n, m, p) == Some(x)
  {
    DivModCorrect(n, m, p);
    CancelFactor(m, x, DivMod(n, m, p).value, p);
  }

  // ---------------------------------------------------------------------------
  // Fermat's little theorem, from the binomial theorem
  // ---------------------------------------------------------------------------

  function Choose(n: nat, k: nat): nat {
    if k == 0 then 1 else if n == 0 then 0 else Choose(n - 1, k - 1) + Choose(n - 1, k)
  }

  lemma {:induction false} ChooseAbove(n: nat, k: nat)
    requires k >= n
    ensures Choose(n, k) == if k == n then 1 else 0
  {
    if n > 0 {
      ChooseAbove(n - 1, k - 1);
      ChooseAbove(n - 1, k);
    }
  }

  lemma {:induction false} ChooseAbsorbs(n: nat, k: nat)
    requires n > 0 && k > 0
    ensures k * Choose(n, k) == n * Choose(n - 1, k - 1)
    decreases n
  {
    if n == 1 {
      ChooseAbove(0, k - 1);
      ChooseAbove(0, k);
    } else {
      ChooseAbsorbs(n - 1, k);
      var a, b := Choose(n - 1, k - 1), Choose(n - 2, k - 1);
      if k == 1 {
        assert Choose(n, 1) == 1 + Choose(n - 1, 1);
      } else {
        ChooseAbsorbs(n - 1, k - 1);
        var c := Choose(n - 2, k - 2);
        assert a == c + b;
        AbsorbStep(n, k, a, b, c, Choose(n - 1, k));
      }
    }
  }

  lemma AbsorbStep(n: int, k: int, a: int, b: int, c: int, d: int)
    requires a == c + b && k * d == (n - 1) * b && (k - 1) * a == (n - 1) * c
    ensures k * (a + d) == n * a
  {
    assert k * (a + d) == (k - 1) * a + a + k * d;
    assert (n - 1) * c + (n - 1) * b == (n - 1) * (c + b);
  }

  /** The first `m` terms of the binomial expansion of (x + 1)^n. */
  function Terms(n: nat, x: int, m: nat): int {
    if m == 0 then 0 else Terms(n, x, m - 1) + Choose(n, m - 1) * Pow(x, m - 1)
  }

  lemma StepArith(x: int, y: int, t: int, u: int, c: int, d: int)
    ensures (x * t + u) + (c + d) * (x * y) == x * (t + c * y) + (u + d * (x * y))
  {
    assert (c + d) * (x * y) == c * (x * y) + d * (x * y);
    assert c * (x * y) == x * (c * y);
    assert x * (t + c * y) == x * t + x * (c * y);
  }

  lemma {:induction false} TermsStep(n: nat, x: int, m: nat)
    ensures Terms(n + 1, x, m + 1) == x * Terms(n, x, m) + Terms(n, x, m + 1)
  {
    if m > 0 {
      TermsStep(n, x, m - 1);
      var y, t, u, c, d := Pow(x, m - 1), Terms(n, x, m - 1), Terms(n, x, m), Choose(n, m - 1), Choose(n, m);
      assert Terms(n + 1, x, m + 1) == (x * t + u) + (c + d) * (x * y);
      assert u == t + c * y && Terms(n, x, m + 1) == u + d * (x * y);
      StepArith(x, y, t, u, c, d);
    }
  }

  lemma FactorOut(x: int, t: int)
    ensures x * t + t == (x + 1) * t
  {}

  lemma {:induction false} BinomialTheorem(n: nat, x: int)
    ensures Terms(n, x, n + 1) == Pow(x + 1, n)
  {
    if n > 0 {
      BinomialTheorem(n - 1, x);
      TermsStep(n - 1, x, n);
      ChooseAbove(n - 1, n);
      FactorOut(x, Terms(n - 1, x, n));
    }
  }

  lemma PrimeDividesFactor(p: nat, k: nat, x: int, y: int)
    requires Prime(p) && 0 < k < p && k * x == p * y
    ensures x % p == 0
  {
    ModShift(0, y, p);
    DivUnique(k, p, 0, k);
    ProductZero(k, x, p);
  }

  lemma PrimeDividesChoose(p: nat, k: nat)
    requires Prime(p) && 0 < k < p
    ensures Choose(p, k) % p == 0
  {
    ChooseAbsorbs(p, k);
    PrimeDividesFactor(p, k, Choose(p, k), Choose(p - 1, k - 1));
  }

  lemma {:induction false} TermsModPrime(p: nat, x: int, m: nat)
    requires Prime(p) && 1 <= m <= p
    ensures Cong(Terms(p, x, m), 1, p)
  {
    if m > 1 {
      TermsModPrime(p, x, m - 1);
      PrimeDividesChoose(p, m - 1);
      CongMul(Choose(p, m - 1), 0, Pow(x, m - 1), Pow(x, m - 1), p);
      CongAdd(Terms(p, x, m - 1), 1, Choose(p, m - 1) * Pow(x, m - 1), 0, p);
    }
  }

  lemma {:induction false} FermatPower(p: nat, a: nat)
    requires Prime(p)
    ensures Cong(Pow(a, p), a, p)
  {
    if a > 0 {
      var x := a - 1;
      FermatPower(p, x);
      BinomialTheorem(p, x);
      TermsModPrime(p, x, p);
      ChooseAbove(p, p);
      CongAdd(Terms(p, x, p), 1, Pow(x, p), x, p);
    }
  }

  /** Fermat's little theorem. */
  lemma Fermat(p: nat, a: int)
    requires Prime(p) && a % p != 0
    ensures Cong(Pow(a, p - 1), 1, p)
  {
    var r := a % p;
    FermatPower(p, r);
    var y := Pow(r, p - 1);
    assert Pow(r, p) == r * y;
    CongAdd(r * y, r, r, r, p);
    assert r * y - r == r * (y - 1);
    DivUnique(r, p, 0, r);
    ProductZero(r, y - 1, p);
    CongAdd(y - 1, 0, 1, 1, p);
    CongSelf(a, p);
    CongPow(a, r, p - 1, p);
  }
}
