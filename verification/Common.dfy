/** Small shared vocabulary: an option type, powers of two and paths as bit strings. */
module Common {

  datatype Option<+T> = None | Some(value: T)

  function Pow2(n: nat): (r: nat)
    ensures r >= 1
  {
    if n == 0 then 1 else 2 * Pow2(n - 1)
  }

  lemma {:induction false} Pow2Add(a: nat, b: nat)
    ensures Pow2(a + b) == Pow2(a) * Pow2(b)
  {
    if a > 0 {
      Pow2Add(a - 1, b);
      assert 2 * (Pow2(a - 1) * Pow2(b)) == (2 * Pow2(a - 1)) * Pow2(b);
    }
  }

  lemma {:induction false} Pow2Monotone(a: nat, b: nat)
    requires a <= b
    ensures Pow2(a) <= Pow2(b)
  {
    if a < b { Pow2Monotone(a, b - 1); }
  }

  lemma DivUnique(x: int, d: int, q: int, r: int)
    requires d > 0 && 0 <= r < d && x == q * d + r
    ensures x / d == q && x % d == r
  {
    var e := x / d - q;
    assert e * d == r - x % d;
    assert e >= 1 ==> e * d >= d;
    assert e <= -1 ==> e * d <= -d;
  }

  lemma QuotientNat(x: nat, d: nat)
    requires d > 0
    ensures x / d >= 0
  {}

  lemma DivPow2(k: int, h: nat)
    ensures k / Pow2(h) / 2 == k / Pow2(h + 1)
  {
    var p := Pow2(h);
    var q, r := k / p, k % p;
    var rest := (q % 2) * p + r;
    assert k == (q / 2) * (2 * p) + rest;
    DivUnique(k, 2 * p, q / 2, rest);
  }

  /** Bitwise `&` of two non-negative integers. */
  function BitAnd(x: nat, y: nat): nat {
    if x == 0 || y == 0 then 0
    else 2 * BitAnd(x / 2, y / 2) + (if x % 2 == 1 && y % 2 == 1 then 1 else 0)
  }

  lemma {:induction false} BitAndSame(x: nat)
    ensures BitAnd(x, x) == x
  {
    if x > 0 { BitAndSame(x / 2); }
  }

  /** math_utils.is_power_of_2: `x > 0 and x & (x - 1) == 0`. */
  predicate IsPowerOf2(x: nat) {
    x > 0 && BitAnd(x, x - 1) == 0
  }

  lemma {:induction false} PowerOf2HasLog(x: nat) returns (k: nat)
    requires IsPowerOf2(x)
    ensures x == Pow2(k)
  {
    if x == 1 {
      k := 0;
    } else {
      if x % 2 == 1 { BitAndSame(x / 2); }
      k := PowerOf2HasLog(x / 2);
      k := k + 1;
    }
  }

  lemma {:induction false} Pow2IsPowerOf2(k: nat)
    ensures IsPowerOf2(Pow2(k))
  {
    if k > 0 {
      Pow2IsPowerOf2(k - 1);
      var p := Pow2(k - 1);
      assert Pow2(k) == 2 * p && (2 * p) / 2 == p && (2 * p - 1) / 2 == p - 1;
    }
  }

  // A path from a node down the tree, most significant step first; true is a right step.

  /** The number of a path, as the code writes it. */
  function Num(bits: seq<bool>): (r: nat)
    ensures r < Pow2(|bits|)
  {
    if bits == [] then 0 else (if bits[0] then Pow2(|bits| - 1) else 0) + Num(bits[1..])
  }

  lemma {:induction false} NumAppend(bits: seq<bool>, b: bool)
    ensures Num(bits + [b]) == 2 * Num(bits) + (if b then 1 else 0)
  {
    if bits == [] {
      assert bits + [b] == [b] && [b][1..] == [];
    } else {
      assert (bits + [b])[1..] == bits[1..] + [b];
      NumAppend(bits[1..], b);
    }
  }

  lemma {:induction false} NumInjective(a: seq<bool>, b: seq<bool>)
    requires |a| == |b| && Num(a) == Num(b)
    ensures a == b
  {
    if a != [] {
      NumInjective(a[1..], b[1..]);
      assert a == [a[0]] + a[1..] && b == [b[0]] + b[1..];
    }
  }

  /** The index, `h` layers up, of the node above `k`. */
  ghost function Above(k: int, h: nat): int {
    if h == 0 then k else Above(k, h - 1) / 2
  }

  lemma {:induction false} AboveIsDiv(k: int, h: nat)
    ensures Above(k, h) == k / Pow2(h)
  {
    if h > 0 {
      AboveIsDiv(k, h - 1);
      DivPow2(k, h - 1);
    }
  }

  /** The number of the node reached from node `p` of its layer by a path. */
  function PathNum(p: nat, bits: seq<bool>): nat
    decreases |bits|
  {
    if bits == [] then p else PathNum(2 * p + (if bits[0] then 1 else 0), bits[1..])
  }

  lemma DoubleTimes(p: nat, b: nat, q: nat)
    ensures (2 * p + b) * q == p * (2 * q) + b * q
  {}

  lemma {:induction false} PathNumIs(p: nat, bits: seq<bool>)
    ensures PathNum(p, bits) == p * Pow2(|bits|) + Num(bits)
    decreases |bits|
  {
    if bits != [] {
      var b := if bits[0] then 1 else 0;
      PathNumIs(2 * p + b, bits[1..]);
      DoubleTimes(p, b, Pow2(|bits| - 1));
    }
  }

  lemma {:induction false} PathNumConcat(p: nat, a: seq<bool>, b: seq<bool>)
    ensures PathNum(p, a + b) == PathNum(PathNum(p, a), b)
    decreases |a|
  {
    if a == [] {
      assert a + b == b;
    } else {
      assert (a + b)[1..] == a[1..] + b;
      PathNumConcat(2 * p + (if a[0] then 1 else 0), a[1..], b);
    }
  }

  lemma {:induction false} AbovePath(p: nat, bits: seq<bool>)
    ensures Above(PathNum(p, bits), |bits|) == p
    decreases |bits|
  {
    if bits != [] { AbovePath(2 * p + (if bits[0] then 1 else 0), bits[1..]); }
  }

  /** The `i` low bits of `m`. */
  function LowBits(m: nat, i: nat): nat {
    if i == 0 then 0 else m % 2 + 2 * LowBits(m / 2, i - 1)
  }

  lemma {:induction false} LowBitsIsMod(m: nat, i: nat)
    ensures LowBits(m, i) == m % Pow2(i)
    decreases i
  {
    if i > 0 {
      LowBitsIsMod(m / 2, i - 1);
      HalfFirst(m, Pow2(i - 1));
    }
  }

  lemma TwiceTimes(q: int, h: int)
    ensures q * (2 * h) == 2 * (q * h)
  {}

  /** Dividing by 2 first. */
  lemma HalfFirst(a: nat, m: nat)
    requires m > 0
    ensures a / 2 / m == a / (2 * m) && a % (2 * m) == 2 * (a / 2 % m) + a % 2
  {
    var q, r := a / 2 / m, a / 2 % m;
    assert a == 2 * (a / 2) + a % 2 && a / 2 == q * m + r;
    TwiceTimes(q, m);
    DivUnique(a, 2 * m, q, 2 * r + a % 2);
  }

  function Reverse<T>(s: seq<T>): (r: seq<T>)
    ensures |r| == |s|
    ensures forall i :: 0 <= i < |s| ==> r[i] == s[|s| - 1 - i]
  {
    if s == [] then [] else Reverse(s[1..]) + [s[0]]
  }

  lemma ReverseConcat<T>(a: seq<T>, b: seq<T>)
    ensures Reverse(a + b) == Reverse(b) + Reverse(a)
  {}

  lemma ReverseTwice<T>(a: seq<T>)
    ensures Reverse(Reverse(a)) == a
  {}

  function Map<T, U>(f: T -> U, s: seq<T>): (r: seq<U>)
    ensures |r| == |s|
  {
    if s == [] then [] else [f(s[0])] + Map(f, s[1..])
  }

  lemma {:induction false} MapAt<T, U>(f: T -> U, s: seq<T>, i: nat)
    requires i < |s|
    ensures Map(f, s)[i] == f(s[i])
  {
    if i > 0 { MapAt(f, s[1..], i - 1); }
  }

  lemma {:induction false} MapConcat<T, U>(f: T -> U, a: seq<T>, b: seq<T>)
    ensures Map(f, a + b) == Map(f, a) + Map(f, b)
  {
    if a == [] {
      assert a + b == b;
    } else {
      assert (a + b)[1..] == a[1..] + b;
      MapConcat(f, a[1..], b);
    }
  }

  lemma {:induction false} MapReverse<T, U>(f: T -> U, s: seq<T>)
    ensures Reverse(Map(f, Reverse(s))) == Map(f, s)
  {
    forall i | 0 <= i < |s| ensures Reverse(Map(f, Reverse(s)))[i] == Map(f, s)[i] {
      MapAt(f, s, i);
      MapAt(f, Reverse(s), |s| - 1 - i);
    }
  }
}
