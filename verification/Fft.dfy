/**
 The fast Fourier transform over a prime field and its inverse
 (src/starkware/python/math_utils.py, fft, ifft).
 */
module Fft {
  import opened Common
  import opened NumberTheory

  /** `s[::2]`. */
  function Evens<T>(s: seq<T>): (r: seq<T>)
    ensures |r| == (|s| + 1) / 2
  {
    if |s| == 0 then [] else if |s| == 1 then [s[0]] else [s[0]] + Evens(s[2..])
  }

  /** `s[1::2]`. */
  function Odds<T>(s: seq<T>): (r: seq<T>)
    ensures |r| == |s| / 2
  {
    if |s| < 2 then [] else [s[1]] + Odds(s[2..])
  }

  lemma {:induction false} EvensAt<T>(s: seq<T>, i: nat)
    requires 2 * i < |s|
    ensures Evens(s)[i] == s[2 * i]
    decreases i
  {
    if i > 0 { EvensAt(s[2..], i - 1); }
  }

  /** One entry of the result, from those of the transforms of the even and odd coefficients. */
  function Entry(even: int, odd: int, w: int, p: int, sign: int): int
    requires p > 0
  {
    (even + sign * ((w * odd) % p)) % p
  }

  /** One half of the result. */
  function Butterfly(even: seq<int>, odd: seq<int>, group: seq<int>, p: int, sign: int): (r: seq<int>)
    requires p > 0 && |even| == |odd| <= |group|
    ensures |r| == |even|
  {
    if even == [] then []
    else [Entry(even[0], odd[0], group[0], p, sign)] + Butterfly(even[1..], odd[1..], group[1..], p, sign)
  }

  lemma {:induction false} ButterflyAt(even: seq<int>, odd: seq<int>, group: seq<int>, p: int, sign: int, i: nat)
    requires p > 0 && |even| == |odd| <= |group| && i < |even|
    ensures Butterfly(even, odd, group, p, sign)[i] == Entry(even[i], odd[i], group[i], p, sign)
    decreases i
  {
    if i > 0 { ButterflyAt(even[1..], odd[1..], group[1..], p, sign, i - 1); }
  }

  /** The inner function `_fft`. */
  function FftRec(coeffs: seq<int>, group: seq<int>, p: int, k: nat): (r: seq<int>)
    requires p > 0 && |coeffs| == |group| == Pow2(k)
    ensures |r| == |coeffs|
    decreases k
  {
    if k == 0 then coeffs
    else
      var even := FftRec(Evens(coeffs), Evens(group), p, k - 1);
      var odd := FftRec(Odds(coeffs), Evens(group), p, k - 1);
      Butterfly(even, odd, group, p, 1) + Butterfly(even, odd, group, p, -1)
  }

  // ---------------------------------------------------------------------------
  // Evaluation of polynomials
  // ---------------------------------------------------------------------------

  function Eval(c: seq<int>, x: int): int {
    if c == [] then 0 else c[0] + x * Eval(c[1..], x)
  }

  lemma {:induction false} CongEval(c: seq<int>, x: int, y: int, p: int)
    requires p > 0 && Cong(x, y, p)
    ensures Cong(Eval(c, x), Eval(c, y), p)
  {
    if c != [] {
      CongEval(c[1..], x, y, p);
      CongMul(x, y, Eval(c[1..], x), Eval(c[1..], y), p);
      CongAdd(c[0], c[0], x * Eval(c[1..], x), y * Eval(c[1..], y), p);
    }
  }

  lemma SplitArith(x: int, a: int, b: int, e: int, o: int)
    ensures a + x * (b + x * (e + x * o)) == (a + (x * x) * e) + x * (b + (x * x) * o)
  {
    assert x * (b + x * (e + x * o)) == x * b + x * (x * (e + x * o));
    assert x * (x * (e + x * o)) == (x * x) * (e + x * o) == (x * x) * e + (x * x) * (x * o);
    assert (x * x) * (x * o) == x * ((x * x) * o);
    assert x * (b + (x * x) * o) == x * b + x * ((x * x) * o);
  }

  /** c(x) = even(x^2) + x * odd(x^2). */
  lemma {:induction false} EvalSplit(c: seq<int>, x: int)
    requires |c| % 2 == 0
    ensures Eval(c, x) == Eval(Evens(c), x * x) + x * Eval(Odds(c), x * x)
    decreases |c|
  {
    if c != [] {
      var rest := c[2..];
      EvalSplit(rest, x);
      assert c[1..][1..] == rest;
      assert Eval(c[1..], x) == c[1] + x * Eval(rest, x);
      assert Evens(c)[1..] == Evens(rest) && Odds(c)[1..] == Odds(rest);
      SplitArith(x, c[0], c[1], Eval(Evens(rest), x * x), Eval(Odds(rest), x * x));
    }
  }

  // ---------------------------------------------------------------------------
  // The transform evaluates the polynomial at the powers of the generator
  // ---------------------------------------------------------------------------

  /** `group` lists the powers of `g`. */
  ghost predicate Powers(group: seq<int>, g: int, p: int)
    requires p > 0
  {
    forall i :: 0 <= i < |group| ==> Cong(group[i], Pow(g, i), p)
  }

  /** Half way round the group comes -1. */
  ghost predicate HalfTurn(g: int, k: nat, p: int)
    requires p > 0
  {
    k > 0 ==> Cong(Pow(g, Pow2(k - 1)), -1, p)
  }

  lemma HalfTurnSquare(g: int, k: nat, p: int)
    requires p > 0 && k > 0 && HalfTurn(g, k, p)
    ensures HalfTurn(g * g, k - 1, p)
  {
    if k > 1 {
      PowProduct(g, g, Pow2(k - 2));
      PowAdd(g, Pow2(k - 2), Pow2(k - 2));
    }
  }

  lemma EvensPowers(group: seq<int>, g: int, p: int)
    requires p > 0 && |group| % 2 == 0 && Powers(group, g, p)
    ensures Powers(Evens(group), g * g, p)
  {
    forall i | 0 <= i < |Evens(group)| ensures Cong(Evens(group)[i], Pow(g * g, i), p) {
      EvensAt(group, i);
      PowProduct(g, g, i);
      PowAdd(g, i, i);
    }
  }

  lemma ButterflyCong(p: int, s: int, e: int, E: int, o: int, O: int, w: int, W: int)
    requires p > 0 && Cong(e, E, p) && Cong(o, O, p) && Cong(w, W, p)
    ensures Cong(Entry(e, o, w, p, s), E + (s * W) * O, p)
  {
    CongMul(w, W, o, O, p);
    CongSelf(w * o, p);
    CongMul(s, s, (w * o) % p, W * O, p);
    assert s * (W * O) == (s * W) * O;
    CongAdd(e, E, s * ((w * o) % p), s * (W * O), p);
    CongSelf(e + s * ((w * o) % p), p);
  }

  lemma SignSquare(s: int, x: int)
    requires s == 1 || s == -1
    ensures (s * x) * (s * x) == x * x
  {}

  /** One entry of a butterfly is the polynomial at plus or minus a power. */
  lemma ButterflyEval(c: seq<int>, g: int, p: int, i: nat, s: int, e: int, o: int, w: int, x: int)
    requires p > 0 && |c| % 2 == 0
    requires Cong(w, Pow(g, i), p) && (s == 1 || s == -1) && Cong(x, s * Pow(g, i), p)
    requires Cong(e, Eval(Evens(c), Pow(g * g, i)), p) && Cong(o, Eval(Odds(c), Pow(g * g, i)), p)
    ensures Cong(Entry(e, o, w, p, s), Eval(c, x), p)
  {
    var y := s * Pow(g, i);
    PowProduct(g, g, i);
    SignSquare(s, Pow(g, i));
    EvalSplit(c, y);
    CongEval(c, x, y, p);
    ButterflyCong(p, s, e, Eval(Evens(c), y * y), o, Eval(Odds(c), y * y), w, Pow(g, i));
  }

  /** The power in the second half is minus the power in the first. */
  lemma SecondHalf(g: int, p: int, k: nat, j: nat)
    requires p > 0 && k > 0 && HalfTurn(g, k, p)
    ensures Cong(Pow(g, Pow2(k - 1) + j), -1 * Pow(g, j), p)
  {
    PowAdd(g, Pow2(k - 1), j);
    CongMul(Pow(g, Pow2(k - 1)), -1, Pow(g, j), Pow(g, j), p);
  }

  lemma FftRecAt(c: seq<int>, group: seq<int>, p: int, k: nat, i: nat)
    requires p > 0 && |c| == |group| == Pow2(k) && i < Pow2(k) && k > 0
    ensures var m := Pow2(k - 1);
      var (j, s) := if i < m then (i, 1) else (i - m, -1);
      var e := FftRec(Evens(c), Evens(group), p, k - 1)[j];
      var o := FftRec(Odds(c), Evens(group), p, k - 1)[j];
      FftRec(c, group, p, k)[i] == Entry(e, o, group[j], p, s)
  {
    var m := Pow2(k - 1);
    var (j, s) := if i < m then (i, 1) else (i - m, -1);
    ButterflyAt(FftRec(Evens(c), Evens(group), p, k - 1), FftRec(Odds(c), Evens(group), p, k - 1), group, p, s, j);
  }

  lemma FftStep(c: seq<int>, w: int, g: int, p: int, k: nat, i: nat, j: nat, e: int, o: int)
    requires p > 0 && k > 0 && |c| == Pow2(k) && i < Pow2(k) && HalfTurn(g, k, p)
    requires j == if i < Pow2(k - 1) then i else i - Pow2(k - 1)
    requires Cong(w, Pow(g, j), p)
    requires Cong(e, Eval(Evens(c), Pow(g * g, j)), p) && Cong(o, Eval(Odds(c), Pow(g * g, j)), p)
    ensures Cong(Entry(e, o, w, p, if i < Pow2(k - 1) then 1 else -1), Eval(c, Pow(g, i)), p)
  {
    if i >= Pow2(k - 1) { SecondHalf(g, p, k, j); }
    ButterflyEval(c, g, p, j, if i < Pow2(k - 1) then 1 else -1, e, o, w, Pow(g, i));
  }

  /** Main result: entry `i` of the transform is the polynomial at the i-th power. */
  lemma {:induction false} FftEvaluates(c: seq<int>, group: seq<int>, g: int, p: int, k: nat, i: nat)
    requires p > 0 && |c| == |group| == Pow2(k) && i < Pow2(k)
    requires Powers(group, g, p) && HalfTurn(g, k, p)
    ensures Cong(FftRec(c, group, p, k)[i], Eval(c, Pow(g, i)), p)
    decreases k
  {
    if k == 0 {
      assert c[1..] == [];
    } else {
      var j := if i < Pow2(k - 1) then i else i - Pow2(k - 1);
      var even, odd, half := Evens(c), Odds(c), Evens(group);
      var e, o := FftRec(even, half, p, k - 1)[j], FftRec(odd, half, p, k - 1)[j];
      assert Cong(e, Eval(even, Pow(g * g, j)), p) && Cong(o, Eval(odd, Pow(g * g, j)), p) by {
        HalfTurnSquare(g, k, p);
        EvensPowers(group, g, p);
        FftEvaluates(even, half, g * g, p, k - 1, j);
        FftEvaluates(odd, half, g * g, p, k - 1, j);
      }
      FftStep(c, group[j], g, p, k, i, j, e, o);
      FftRecAt(c, group, p, k, i);
    }
  }

  // ---------------------------------------------------------------------------
  // Generators
  // ---------------------------------------------------------------------------

  /** `n` is the multiplicative order of `g`. */
  ghost predicate OrderIs(g: int, n: nat, p: int)
    requires p > 0
  {
    n > 0 && Cong(Pow(g, n), 1, p) && forall j {:trigger Cong(Pow(g, j), 1, p)} :: 0 < j < n ==> !Cong(Pow(g, j), 1, p)
  }

  lemma PlusMinus(x: int)
    ensures (x - 1) * (x + 1) == x * x - 1
  {}

  /** A square root of 1 other than 1 is -1. */
  lemma RootOfOne(x: int, p: int)
    requires Prime(p) && Cong(x * x, 1, p) && !Cong(x, 1, p)
    ensures Cong(x, -1, p)
  {
    PlusMinus(x);
    CongAdd(x * x, 1, 1, 1, p);
    assert (x - 1) % p != 0 by {
      if (x - 1) % p == 0 { CongAdd(x - 1, 0, 1, 1, p); }
    }
    ProductZero(x - 1, x + 1, p);
    CongAdd(x + 1, 0, 1, 1, p);
  }

  /** A generator of order 2^k has -1 half way round. */
  lemma OrderGivesHalfTurn(g: int, k: nat, p: int)
    requires Prime(p) && OrderIs(g, Pow2(k), p)
    ensures HalfTurn(g, k, p)
  {
    if k > 0 {
      var m := Pow2(k - 1);
      PowAdd(g, m, m);
      assert 0 < m < Pow2(k);
      RootOfOne(Pow(g, m), p);
    }
  }

  lemma OrderNotZero(g: int, n: nat, p: int)
    requires Prime(p) && OrderIs(g, n, p)
    ensures g % p != 0
  {
    if g % p == 0 {
      CongMul(g, 0, Pow(g, n - 1), Pow(g, n - 1), p);
      DivUnique(1, p, 0, 1);
    }
  }

  ghost predicate Inverses(g: int, h: int, p: int)
    requires p > 0
  {
    Cong(g * h, 1, p)
  }

  lemma InversePowers(g: int, h: int, n: nat, p: int)
    requires p > 0 && Inverses(g, h, p)
    ensures Cong(Pow(g, n) * Pow(h, n), 1, p)
  {
    PowProduct(g, h, n);
    CongPow(g * h, 1, n, p);
    PowOne(n);
  }

  lemma InverseOrder(g: int, h: int, n: nat, p: int)
    requires Prime(p) && OrderIs(g, n, p) && Inverses(g, h, p)
    ensures OrderIs(h, n, p)
  {
    forall j: nat ensures Cong(Pow(g, j), 1, p) <==> Cong(Pow(h, j), 1, p) {
      InversePowers(g, h, j, p);
      if Cong(Pow(g, j), 1, p) { CongMul(Pow(g, j), 1, Pow(h, j), Pow(h, j), p); }
      if Cong(Pow(h, j), 1, p) { CongMul(Pow(g, j), Pow(g, j), Pow(h, j), 1, p); }
    }
  }

  /** The inverse that `ifft` computes as a power. */
  lemma FermatInverse(g: int, p: int)
    requires Prime(p) && g % p != 0
    ensures Inverses(g, Pow(g, p - 2) % p, p)
  {
    Fermat(p, g);
    assert Pow(g, p - 1) == g * Pow(g, p - 2);
    CongSelf(Pow(g, p - 2), p);
    CongMul(g, g, Pow(g, p - 2) % p, Pow(g, p - 2), p);
  }

  lemma {:induction false} Pow2NotZero(k: nat, p: int)
    requires Prime(p) && p > 2
    ensures Pow2(k) % p != 0
  {
    if k == 0 {
      DivUnique(1, p, 0, 1);
    } else {
      Pow2NotZero(k - 1, p);
      DivUnique(2, p, 0, 2);
      if (2 * Pow2(k - 1)) % p == 0 { ProductZero(2, Pow2(k - 1), p); }
    }
  }

  /** The length of the array is invertible. */
  lemma LengthNotZero(g: int, k: nat, p: int)
    requires Prime(p) && OrderIs(g, Pow2(k), p)
    ensures Pow2(k) % p != 0
  {
    if p > 2 {
      Pow2NotZero(k, p);
    } else {
      OrderNotZero(g, Pow2(k), p);
      assert Pow(g, 1) == g * Pow(g, 0) == g;
      assert Pow2(k) == 1 by { if Pow2(k) > 1 { assert Cong(Pow(g, 1), 1, p); } }
    }
  }

  // ---------------------------------------------------------------------------
  // Sums of powers
  // ---------------------------------------------------------------------------

  function GeoSum(z: int, n: nat): int {
    if n == 0 then 0 else GeoSum(z, n - 1) + Pow(z, n - 1)
  }

  lemma Telescope(z: int, s: int, y: int)
    requires (z - 1) * s == y - 1
    ensures (z - 1) * (s + y) == z * y - 1
  {
    assert (z - 1) * (s + y) == (z - 1) * s + (z - 1) * y;
    assert (z - 1) * y == z * y - y;
  }

  lemma {:induction false} GeoSumClosed(z: int, n: nat)
    ensures (z - 1) * GeoSum(z, n) == Pow(z, n) - 1
  {
    if n > 0 {
      GeoSumClosed(z, n - 1);
      Telescope(z, GeoSum(z, n - 1), Pow(z, n - 1));
    }
  }

  /** The powers of a root of unity other than 1 add up to 0. */
  lemma GeoSumVanishes(z: int, n: nat, p: int)
    requires Prime(p) && Cong(Pow(z, n), 1, p) && !Cong(z, 1, p)
    ensures GeoSum(z, n) % p == 0
  {
    GeoSumClosed(z, n);
    CongAdd(Pow(z, n), 1, 1, 1, p);
    assert (z - 1) % p != 0 by {
      if (z - 1) % p == 0 { CongAdd(z - 1, 0, 1, 1, p); }
    }
    ProductZero(z - 1, GeoSum(z, n), p);
  }

  lemma {:induction false} GeoSumOfOne(z: int, n: nat, p: int)
    requires p > 0 && Cong(z, 1, p)
    ensures Cong(GeoSum(z, n), n, p)
  {
    if n > 0 {
      GeoSumOfOne(z, n - 1, p);
      CongPow(z, 1, n - 1, p);
      PowOne(n - 1);
      CongAdd(GeoSum(z, n - 1), n - 1, Pow(z, n - 1), 1, p);
    }
  }

  // ---------------------------------------------------------------------------
  // Bit reversal
  // ---------------------------------------------------------------------------

  /** `x.bit_length() - 1`. */
  function Log2(x: nat): nat
    requires x > 0
  {
    if x == 1 then 0 else 1 + Log2(x / 2)
  }

  lemma {:induction false} Log2OfPow2(k: nat)
    ensures Log2(Pow2(k)) == k
  {
    if k > 0 { Log2OfPow2(k - 1); }
  }

  /** The last `width` binary digits of `i`, most significant first. */
  function Bits(i: nat, width: nat): (r: seq<bool>)
    ensures |r| == width
  {
    if width == 0 then [] else Bits(i / 2, width - 1) + [i % 2 == 1]
  }

  /** The index whose binary digits are those of `i` in the opposite order. */
  function ReverseBits(i: nat, width: nat): (r: nat)
    ensures r < Pow2(width)
  {
    Num(Reverse(Bits(i, width)))
  }

  lemma {:induction false} NumOfBits(i: nat, width: nat)
    requires i < Pow2(width)
    ensures Num(Bits(i, width)) == i
  {
    if width > 0 {
      NumOfBits(i / 2, width - 1);
      NumAppend(Bits(i / 2, width - 1), i % 2 == 1);
    }
  }

  lemma BitsOfNum(bits: seq<bool>)
    ensures Bits(Num(bits), |bits|) == bits
  {
    NumOfBits(Num(bits), |bits|);
    NumInjective(Bits(Num(bits), |bits|), bits);
  }

  lemma ReverseBitsTwice(i: nat, width: nat)
    requires i < Pow2(width)
    ensures ReverseBits(ReverseBits(i, width), width) == i
  {
    var bits := Bits(i, width);
    BitsOfNum(Reverse(bits));
    assert Reverse(Reverse(bits)) == bits;
    NumOfBits(i, width);
  }

  lemma HalfFirstDiv(i: nat, m: nat)
    requires m > 0
    ensures i / 2 / m == i / (2 * m)
  {
    var q, r := i / 2 / m, i / 2 % m;
    assert i == 2 * (q * m + r) + i % 2;
    TwiceInside(q, m);
    DivUnique(i, 2 * m, q, 2 * r + i % 2);
  }

  lemma TwiceInside(q: nat, m: nat)
    ensures 2 * (q * m) == q * (2 * m)
  {}

  lemma {:induction false} BitsAt(i: nat, width: nat, t: nat)
    requires t < width
    ensures Bits(i, width)[t] <==> i / Pow2(width - 1 - t) % 2 == 1
  {
    if t < width - 1 {
      BitsAt(i / 2, width - 1, t);
      HalfFirstDiv(i, Pow2(width - 2 - t));
    }
  }

  /** Binary digit `j` of the permuted index is digit `width - 1 - j` of the index. */
  lemma ReverseBitsDigit(i: nat, width: nat, j: nat)
    requires j < width
    ensures ReverseBits(i, width) / Pow2(j) % 2 == i / Pow2(width - 1 - j) % 2
  {
    var bits := Reverse(Bits(i, width));
    BitsOfNum(bits);
    BitsAt(Num(bits), width, width - 1 - j);
    BitsAt(i, width, j);
  }

  /** `[s[i] for i in perm]`. */
  function Permute<T>(s: seq<T>, k: nat): (r: seq<T>)
    requires |s| == Pow2(k)
    ensures |r| == |s|
  {
    seq(|s|, i requires 0 <= i < |s| => s[ReverseBits(i, k)])
  }

  /** The permutation undoes itself. */
  lemma PermuteTwice<T>(s: seq<T>, k: nat)
    requires |s| == Pow2(k)
    ensures Permute(Permute(s, k), k) == s
  {
    forall i | 0 <= i < |s| ensures Permute(Permute(s, k), k)[i] == s[i] {
      ReverseBitsTwice(i, k);
    }
  }

  // ---------------------------------------------------------------------------
  // fft and ifft
  // ---------------------------------------------------------------------------

  /** The sample points. */
  function Group(g: int, p: int, n: nat): (r: seq<int>)
    requires p > 0 && n > 0
    ensures |r| == n
  {
    if n == 1 then [1] else Group(g, p, n - 1) + [(Group(g, p, n - 1)[n - 2] * g) % p]
  }

  lemma {:induction false} GroupPowers(g: int, p: int, n: nat)
    requires p > 0 && n > 0
    ensures Powers(Group(g, p, n), g, p)
  {
    if n > 1 {
      GroupPowers(g, p, n - 1);
      var x := Group(g, p, n - 1)[n - 2];
      assert Cong(x, Pow(g, n - 2), p);
      CongMul(x, Pow(g, n - 2), g, g, p);
      CongSelf(x * g, p);
      assert Pow(g, n - 1) == g * Pow(g, n - 2);
    }
  }

  lemma LengthLog(n: nat)
    requires IsPowerOf2(n)
    ensures n == Pow2(Log2(n))
  {
    var k := PowerOf2HasLog(n);
    Log2OfPow2(k);
  }

  /** What `fft` returns; None is its failed length check. */
  function Transform(coeffs: seq<int>, g: int, p: int, bitReversed: bool): Option<seq<int>>
    requires p > 0
  {
    if coeffs == [] then Some([])
    else if !IsPowerOf2(|coeffs|) then None
    else
      LengthLog(|coeffs|);
      var k := Log2(|coeffs|);
      var values := FftRec(coeffs, Group(g, p, |coeffs|), p, k);
      Some(if bitReversed then Permute(values, k) else values)
  }

  /** fft */
  method Fft(coeffs: seq<int>, generator: int, prime: int, bitReversed: bool) returns (r: Option<seq<int>>)
    requires prime > 0
    ensures r == Transform(coeffs, generator, prime, bitReversed)
  {
    if |coeffs| == 0 { return Some([]); }
    if !IsPowerOf2(|coeffs|) { return None; }
    LengthLog(|coeffs|);
    var group := [1];
    for i := 0 to |coeffs| - 1
      invariant group == Group(generator, prime, i + 1)
    {
      group := group + [(group[|group| - 1] * generator) % prime];
    }
    var values := FftRec(coeffs, group, prime, Log2(|coeffs|));
    if bitReversed {
      values := Permute(values, Log2(|coeffs|));
    }
    return Some(values);
  }

  /** The list comprehension that divides every value by the length. */
  function Scale(values: seq<int>, inv: int, p: int): (r: seq<int>)
    requires p > 0
    ensures |r| == |values|
  {
    seq(|values|, i requires 0 <= i < |values| => (values[i] * inv) % p)
  }

  /** ifft; a length that is no power of two fails in the permutation or in fft. */
  method Ifft(coeffs: seq<int>, generator: int, prime: int, bitReversed: bool) returns (r: Option<seq<int>>)
    requires prime > 1
    ensures r == Inverse(coeffs, generator, prime, bitReversed)
  {
    var invGenerator := Pow(generator, prime - 2) % prime;
    var cs := coeffs;
    if bitReversed && |coeffs| > 0 {
      if !IsPowerOf2(|coeffs|) { return None; }
      LengthLog(|coeffs|);
      cs := Permute(coeffs, Log2(|coeffs|));
    }
    var values := Fft(cs, invGenerator, prime, false);
    if values.None? { return None; }
    return Some(Scale(values.value, Pow(|coeffs|, prime - 2) % prime, prime));
  }

  function Inverse(coeffs: seq<int>, g: int, p: int, bitReversed: bool): Option<seq<int>>
    requires p > 1
  {
    if coeffs == [] then Some([])
    else if !IsPowerOf2(|coeffs|) then None
    else
      LengthLog(|coeffs|);
      var cs := if bitReversed then Permute(coeffs, Log2(|coeffs|)) else coeffs;
      Some(Scale(Transform(cs, Pow(g, p - 2) % p, p, false).value, Pow(|coeffs|, p - 2) % p, p))
  }

  // ---------------------------------------------------------------------------
  // Round trips
  // ---------------------------------------------------------------------------

  /** The values of `c` at the first `n` powers of `g`, weighed with the powers of `y`. */
  ghost function EvalSum(c: seq<int>, g: int, y: int, n: nat): int {
    if n == 0 then 0 else EvalSum(c, g, y, n - 1) + Eval(c, Pow(g, n - 1)) * Pow(y, n - 1)
  }

  lemma {:induction false} EvalAppend(s: seq<int>, a: int, x: int)
    ensures Eval(s + [a], x) == Eval(s, x) + a * Pow(x, |s|)
  {
    if s == [] {
      assert ([a])[1..] == [];
      assert [] + [a] == [a];
    } else {
      assert (s + [a])[1..] == s[1..] + [a];
      EvalAppend(s[1..], a, x);
      AppendArith(s[0], x, Eval(s[1..], x), a, Pow(x, |s| - 1));
    }
  }

  lemma AppendArith(h: int, x: int, e: int, a: int, y: int)
    ensures h + x * (e + a * y) == (h + x * e) + a * (x * y)
  {
    assert x * (e + a * y) == x * e + x * (a * y);
    assert x * (a * y) == a * (x * y);
  }

  /** A sequence that agrees with the values of `c` evaluates to the weighed sum. */
  lemma {:induction false} EvalOfValues(v: seq<int>, c: seq<int>, g: int, y: int, p: int)
    requires p > 0
    requires forall i :: 0 <= i < |v| ==> Cong(v[i], Eval(c, Pow(g, i)), p)
    ensures Cong(Eval(v, y), EvalSum(c, g, y, |v|), p)
  {
    if v != [] {
      var m := |v| - 1;
      var rest := v[..m];
      EvalOfValues(rest, c, g, y, p);
      assert v == rest + [v[m]];
      EvalAppend(rest, v[m], y);
      CongMul(v[m], Eval(c, Pow(g, m)), Pow(y, m), Pow(y, m), p);
      CongAdd(Eval(rest, y), EvalSum(c, g, y, m), v[m] * Pow(y, m), Eval(c, Pow(g, m)) * Pow(y, m), p);
    }
  }

  lemma PeelArith(h: int, x: int, e: int, y: int, s: int, r: int)
    ensures (h * s + r) + (h + x * e) * y == h * (s + y) + (r + e * (x * y))
  {
    assert (h + x * e) * y == h * y + (x * e) * y;
    assert (x * e) * y == e * (x * y);
    assert h * (s + y) == h * s + h * y;
  }

  /** Each coefficient contributes a sum of powers. */
  lemma {:induction false} EvalSumPeel(c: seq<int>, g: int, y: int, n: nat)
    requires c != []
    ensures EvalSum(c, g, y, n) == c[0] * GeoSum(y, n) + EvalSum(c[1..], g, g * y, n)
    decreases n
  {
    if n > 0 {
      EvalSumPeel(c, g, y, n - 1);
      var x := Pow(g, n - 1);
      PowProduct(g, y, n - 1);
      PeelArith(c[0], x, Eval(c[1..], x), Pow(y, n - 1), GeoSum(y, n - 1), EvalSum(c[1..], g, g * y, n - 1));
    }
  }

  lemma {:induction false} EvalSumEmpty(g: int, y: int, n: nat)
    ensures EvalSum([], g, y, n) == 0
  {
    if n > 0 { EvalSumEmpty(g, y, n - 1); }
  }

  /** g^a / g^j is 1 only for a = j. */
  lemma QuotientNotOne(g: int, h: int, n: nat, a: nat, j: nat, p: int)
    requires Prime(p) && OrderIs(g, n, p) && Inverses(g, h, p) && a < n && j < n && a != j
    ensures !Cong(Pow(g, a) * Pow(h, j), 1, p)
  {
    InverseOrder(g, h, n, p);
    if Cong(Pow(g, a) * Pow(h, j), 1, p) {
      var m := if a < j then a else j;
      InversePowers(g, h, m, p);
      var b := if a < j then Pow(h, j - a) else Pow(g, a - j);
      if a < j { PowAdd(h, a, j - a); } else { PowAdd(g, j, a - j); }
      Regroup(Pow(g, m), b, Pow(h, m));
      CongMul(Pow(g, m) * Pow(h, m), 1, b, b, p);
      assert Cong(b, 1, p);
      assert false;
    }
  }

  lemma Regroup(x: int, b: int, y: int)
    ensures x * (y * b) == (x * y) * b == (x * b) * y
  {}

  lemma QuotientRoot(g: int, h: int, n: nat, a: nat, j: nat, p: int)
    requires Prime(p) && OrderIs(g, n, p) && Inverses(g, h, p)
    ensures Cong(Pow(Pow(g, a) * Pow(h, j), n), 1, p)
  {
    InverseOrder(g, h, n, p);
    PowProduct(Pow(g, a), Pow(h, j), n);
    PowerRoot(g, n, a, p);
    PowerRoot(h, n, j, p);
    CongMul(Pow(Pow(g, a), n), 1, Pow(Pow(h, j), n), 1, p);
  }

  lemma PowerRoot(g: int, n: nat, a: nat, p: int)
    requires p > 0 && Cong(Pow(g, n), 1, p)
    ensures Cong(Pow(Pow(g, a), n), 1, p)
  {
    PowOfPow(g, a, n);
    PowOfPow(g, n, a);
    assert a * n == n * a;
    CongPow(Pow(g, n), 1, a, p);
    PowOne(a);
  }

  /** Orthogonality of the powers. */
  lemma Orthogonal(g: int, h: int, n: nat, a: nat, j: nat, p: int)
    requires Prime(p) && OrderIs(g, n, p) && Inverses(g, h, p) && a < n && j < n
    ensures Cong(GeoSum(Pow(g, a) * Pow(h, j), n), if a == j then n else 0, p)
  {
    var z := Pow(g, a) * Pow(h, j);
    if a == j {
      InversePowers(g, h, a, p);
      GeoSumOfOne(z, n, p);
    } else {
      QuotientNotOne(g, h, n, a, j, p);
      QuotientRoot(g, h, n, a, j, p);
      GeoSumVanishes(z, n, p);
    }
  }

  lemma PickStep(c: int, s: int, own: int, e: int, rest: int, p: int)
    requires p > 0 && Cong(s, own, p) && Cong(e, rest, p)
    ensures Cong(c * s + e, c * own + rest, p)
  {
    CongMul(c, c, s, own, p);
    CongAdd(c * s, c * own, e, rest, p);
  }

  /** `n` times the coefficient `j`, if it is not peeled off yet; `c` starts with coefficient `a`. */
  ghost function Picked(c: seq<int>, n: nat, a: nat, j: nat): int {
    if a <= j < a + |c| then n * c[j - a] else 0
  }

  lemma PickedStep(c: seq<int>, n: nat, a: nat, j: nat)
    requires c != []
    ensures Picked(c, n, a, j) == c[0] * (if a == j then n else 0) + Picked(c[1..], n, a + 1, j)
  {}

  lemma NextQuotient(g: int, h: int, a: nat, j: nat)
    ensures g * (Pow(g, a) * Pow(h, j)) == Pow(g, a + 1) * Pow(h, j)
  {}

  /** The weighed sum picks one coefficient, `n` times. */
  lemma {:induction false} EvalSumPicks(c: seq<int>, g: int, h: int, n: nat, a: nat, j: nat, p: int, z: int)
    requires Prime(p) && OrderIs(g, n, p) && Inverses(g, h, p) && a + |c| == n && j < n && z == Pow(g, a) * Pow(h, j)
    ensures Cong(EvalSum(c, g, z, n), Picked(c, n, a, j), p)
    decreases |c|
  {
    if c == [] {
      EvalSumEmpty(g, z, n);
    } else {
      NextQuotient(g, h, a, j);
      EvalSumPicks(c[1..], g, h, n, a + 1, j, p, g * z);
      Orthogonal(g, h, n, a, j, p);
      EvalSumPeel(c, g, z, n);
      PickedStep(c, n, a, j);
      PickStep(c[0], GeoSum(z, n), if a == j then n else 0, EvalSum(c[1..], g, g * z, n), Picked(c[1..], n, a + 1, j), p);
    }
  }

  /** `fft` fails exactly on a non-empty length that is no power of two, and `ifft` with it. */
  lemma TransformLength(c: seq<int>, g: int, p: int, bitReversed: bool)
    requires p > 1
    ensures Transform(c, g, p, bitReversed).Some? <==> c == [] || exists k: nat :: |c| == Pow2(k)
    ensures Inverse(c, g, p, bitReversed).Some? <==> Transform(c, g, p, bitReversed).Some?
  {
    if IsPowerOf2(|c|) { LengthLog(|c|); }
    forall k: nat | |c| == Pow2(k) ensures IsPowerOf2(|c|) { Pow2IsPowerOf2(k); }
  }

  /** `fft` returns the values of the polynomial at the powers of the generator. */
  lemma TransformEvaluates(c: seq<int>, g: int, p: int, bitReversed: bool, k: nat, i: nat)
    requires Prime(p) && |c| == Pow2(k) && OrderIs(g, |c|, p) && i < |c|
    ensures var r := Transform(c, g, p, bitReversed);
      && r.Some? && |r.value| == |c|
      && Cong(r.value[i], Eval(c, Pow(g, if bitReversed then ReverseBits(i, k) else i)), p)
  {
    Pow2IsPowerOf2(k);
    Log2OfPow2(k);
    var group := Group(g, p, |c|);
    GroupPowers(g, p, |c|);
    OrderGivesHalfTurn(g, k, p);
    FftEvaluates(c, group, g, p, k, if bitReversed then ReverseBits(i, k) else i);
  }

  /** The values of `c`, transformed with the inverse generator, are `n` times `c`. */
  lemma TransformOfValues(v: seq<int>, c: seq<int>, g: int, h: int, p: int, k: nat, j: nat)
    requires Prime(p) && |c| == |v| == Pow2(k) && OrderIs(g, |c|, p) && Inverses(g, h, p) && j < |c|
    requires forall i :: 0 <= i < |v| ==> Cong(v[i], Eval(c, Pow(g, i)), p)
    ensures Transform(v, h, p, false).Some? && |Transform(v, h, p, false).value| == |v|
    ensures Cong(Transform(v, h, p, false).value[j], |c| * c[j], p)
  {
    InverseOrder(g, h, |c|, p);
    TransformEvaluates(v, h, p, false, k, j);
    EvalOfValues(v, c, g, Pow(h, j), p);
    assert Pow(g, 0) * Pow(h, j) == Pow(h, j);
    EvalSumPicks(c, g, h, |c|, 0, j, p, Pow(h, j));
  }

  lemma Unscale(x: int, n: int, inv: int, c: int, p: int)
    requires p > 0 && Cong(x, n * c, p) && Inverses(n, inv, p)
    ensures (x * inv) % p == c % p
  {
    CongMul(x, n * c, inv, inv, p);
    assert (n * c) * inv == (n * inv) * c;
    CongMul(n * inv, 1, c, c, p);
  }

  /** Every coefficient reduced. */
  function Reduced(c: seq<int>, p: int): (r: seq<int>)
    requires p > 0
    ensures |r| == |c|
  {
    seq(|c|, i requires 0 <= i < |c| => c[i] % p)
  }

  /** The two inverses that `ifft` computes. */
  lemma InversesExist(g: int, n: nat, k: nat, p: int)
    requires Prime(p) && n == Pow2(k) && OrderIs(g, n, p)
    ensures Inverses(g, Pow(g, p - 2) % p, p) && Inverses(n, Pow(n, p - 2) % p, p)
  {
    OrderNotZero(g, n, p);
    FermatInverse(g, p);
    LengthNotZero(g, k, p);
    FermatInverse(n, p);
  }

  lemma InverseAt(v: seq<int>, c: seq<int>, g: int, p: int, k: nat, j: nat)
    requires Prime(p) && |c| == |v| == Pow2(k) && OrderIs(g, |c|, p) && j < |c|
    requires forall i :: 0 <= i < |v| ==> Cong(v[i], Eval(c, Pow(g, i)), p)
    ensures var r := Inverse(v, g, p, false);
      r.Some? && |r.value| == |c| && r.value[j] == c[j] % p
  {
    var h, inv := Pow(g, p - 2) % p, Pow(|c|, p - 2) % p;
    InversesExist(g, |c|, k, p);
    TransformOfValues(v, c, g, h, p, k, j);
    var t := Transform(v, h, p, false).value;
    Unscale(t[j], |c|, inv, c[j], p);
    Pow2IsPowerOf2(k);
  }

  /** Permuted values are put back before the inverse transform. */
  lemma InverseOfPermuted(v: seq<int>, g: int, p: int, k: nat)
    requires p > 1 && |v| == Pow2(k)
    ensures Inverse(Permute(v, k), g, p, true) == Inverse(v, g, p, false)
  {
    Log2OfPow2(k);
    PermuteTwice(v, k);
  }

  lemma TransformPermuted(c: seq<int>, g: int, p: int, k: nat)
    requires p > 0 && |c| == Pow2(k)
    ensures var r := Transform(c, g, p, false);
      r.Some? && |r.value| == |c| && Transform(c, g, p, true) == Some(Permute(r.value, k))
  {
    Pow2IsPowerOf2(k);
    Log2OfPow2(k);
  }

  /** Main result: `ifft` undoes `fft`, in either order of the values. */
  lemma InverseOfTransform(c: seq<int>, g: int, p: int, bitReversed: bool)
    requires Prime(p) && (c != [] ==> IsPowerOf2(|c|) && OrderIs(g, |c|, p))
    ensures Transform(c, g, p, bitReversed).Some?
    ensures Inverse(Transform(c, g, p, bitReversed).value, g, p, bitReversed) == Some(Reduced(c, p))
  {
    if c != [] {
      LengthLog(|c|);
      var k := Log2(|c|);
      TransformPermuted(c, g, p, k);
      var v := Transform(c, g, p, false).value;
      InverseOfPermuted(v, g, p, k);
      forall i | 0 <= i < |c| ensures Cong(v[i], Eval(c, Pow(g, i)), p) {
        TransformEvaluates(c, g, p, false, k, i);
      }
      forall j | 0 <= j < |c|
        ensures var r := Inverse(v, g, p, false); r.Some? && |r.value| == |c| && r.value[j] == c[j] % p
      {
        InverseAt(v, c, g, p, k, j);
      }
      assert Inverse(v, g, p, false).value == Reduced(c, p);
    }
  }

  lemma {:induction false} EvalScaled(v: seq<int>, w: seq<int>, inv: int, x: int, p: int)
    requires p > 0 && |v| == |w| && forall i :: 0 <= i < |v| ==> Cong(w[i], v[i] * inv, p)
    ensures Cong(Eval(w, x), Eval(v, x) * inv, p)
  {
    if v != [] {
      EvalScaled(v[1..], w[1..], inv, x, p);
      CongMul(x, x, Eval(w[1..], x), Eval(v[1..], x) * inv, p);
      CongAdd(w[0], v[0] * inv, x * Eval(w[1..], x), x * (Eval(v[1..], x) * inv), p);
      ScaleArith(v[0], x, Eval(v[1..], x), inv);
    }
  }

  lemma ScaleArith(a: int, x: int, e: int, inv: int)
    ensures a * inv + x * (e * inv) == (a + x * e) * inv
  {
    assert x * (e * inv) == (x * e) * inv;
  }

  /** Entry `i` of `ifft` is a value of the coefficients divided by the length. */
  lemma InverseEvaluates(v: seq<int>, g: int, p: int, k: nat, i: nat)
    requires Prime(p) && |v| == Pow2(k) && OrderIs(g, |v|, p) && i < |v|
    ensures var r := Inverse(v, g, p, false);
      var (h, inv) := (Pow(g, p - 2) % p, Pow(|v|, p - 2) % p);
      && r.Some? && |r.value| == |v| && 0 <= r.value[i] < p
      && Cong(r.value[i], Eval(Scale(v, inv, p), Pow(h, i)), p)
  {
    var h, inv := Pow(g, p - 2) % p, Pow(|v|, p - 2) % p;
    InversesExist(g, |v|, k, p);
    InverseOrder(g, h, |v|, p);
    TransformEvaluates(v, h, p, false, k, i);
    var t := Transform(v, h, p, false).value[i];
    CongMul(t, Eval(v, Pow(h, i)), inv, inv, p);
    CongSelf(t * inv, p);
    forall l | 0 <= l < |v| ensures Cong(Scale(v, inv, p)[l], v[l] * inv, p) {
      CongSelf(v[l] * inv, p);
    }
    EvalScaled(v, Scale(v, inv, p), inv, Pow(h, i), p);
    Pow2IsPowerOf2(k);
  }

  /** Only a transform of length 1 returns what it was given, reduced or not. */
  lemma TransformReduced(c: seq<int>, g: int, p: int, k: nat, i: nat)
    requires p > 0 && |c| == Pow2(k) && i < |c| && (k == 0 ==> 0 <= c[0] < p)
    ensures var r := Transform(c, g, p, false);
      r.Some? && |r.value| == |c| && 0 <= r.value[i] < p
  {
    Pow2IsPowerOf2(k);
    Log2OfPow2(k);
    if k > 0 { FftRecAt(c, Group(g, p, |c|), p, k, i); }
  }

  lemma UnscaleBack(t: int, n: int, inv: int, v: int, w: int, p: int)
    requires p > 0 && 0 <= t < p && Cong(t, n * w, p) && w == (v * inv) % p && Inverses(n, inv, p)
    ensures t == v % p
  {
    CongSelf(v * inv, p);
    CongMul(n, n, w, v * inv, p);
    assert n * (v * inv) == (n * inv) * v;
    CongMul(n * inv, 1, v, v, p);
    DivUnique(t, p, 0, t);
  }

  lemma TransformAt(v: seq<int>, c: seq<int>, g: int, p: int, k: nat, j: nat)
    requires Prime(p) && |v| == |c| == Pow2(k) && OrderIs(g, |v|, p) && j < |v|
    requires forall i :: 0 <= i < |c| ==> 0 <= c[i] < p
    requires var (h, inv) := (Pow(g, p - 2) % p, Pow(|v|, p - 2) % p);
      forall i :: 0 <= i < |c| ==> Cong(c[i], Eval(Scale(v, inv, p), Pow(h, i)), p)
    ensures var r := Transform(c, g, p, false);
      r.Some? && |r.value| == |v| && r.value[j] == v[j] % p
  {
    var h, inv := Pow(g, p - 2) % p, Pow(|v|, p - 2) % p;
    InversesExist(g, |v|, k, p);
    InverseOrder(g, h, |v|, p);
    var w := Scale(v, inv, p);
    assert Inverses(h, g, p) by { assert h * g == g * h; }
    TransformOfValues(c, w, h, g, p, k, j);
    TransformReduced(c, g, p, k, j);
    var t := Transform(c, g, p, false).value[j];
    UnscaleBack(t, |v|, inv, v[j], w[j], p);
  }

  /** Main result: `fft` undoes `ifft`, in either order of the values. */
  lemma TransformOfInverse(v: seq<int>, g: int, p: int, bitReversed: bool)
    requires Prime(p) && (v != [] ==> IsPowerOf2(|v|) && OrderIs(g, |v|, p))
    ensures Inverse(v, g, p, bitReversed).Some?
    ensures Transform(Inverse(v, g, p, bitReversed).value, g, p, bitReversed) == Some(Reduced(v, p))
  {
    if v != [] {
      LengthLog(|v|);
      var k := Log2(|v|);
      var u := if bitReversed then Permute(v, k) else v;
      TransformOfPlainInverse(u, g, p, k);
      if bitReversed {
        PermuteTwice(v, k);
        InverseOfPermuted(u, g, p, k);
        var c := Inverse(u, g, p, false).value;
        TransformPermuted(c, g, p, k);
        forall i | 0 <= i < |v| ensures Permute(Reduced(u, p), k)[i] == v[i] % p {
          assert Permute(u, k)[i] == v[i];
        }
        assert Permute(Reduced(u, p), k) == Reduced(v, p);
      }
    }
  }

  lemma TransformOfPlainInverse(v: seq<int>, g: int, p: int, k: nat)
    requires Prime(p) && |v| == Pow2(k) && OrderIs(g, |v|, p)
    ensures var r := Inverse(v, g, p, false);
      r.Some? && |r.value| == |v| && Transform(r.value, g, p, false) == Some(Reduced(v, p))
  {
    forall i | 0 <= i < |v|
      ensures var r := Inverse(v, g, p, false);
        var (h, inv) := (Pow(g, p - 2) % p, Pow(|v|, p - 2) % p);
        && r.Some? && |r.value| == |v| && 0 <= r.value[i] < p
        && Cong(r.value[i], Eval(Scale(v, inv, p), Pow(h, i)), p)
    {
      InverseEvaluates(v, g, p, k, i);
    }
    InverseEvaluates(v, g, p, k, 0);
    var c := Inverse(v, g, p, false).value;
    forall j | 0 <= j < |v|
      ensures var r := Transform(c, g, p, false); r.Some? && |r.value| == |v| && r.value[j] == v[j] % p
    {
      TransformAt(v, c, g, p, k, j);
    }
    assert Transform(c, g, p, false).value == Reduced(v, p);
  }
}
