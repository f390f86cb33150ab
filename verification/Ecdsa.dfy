/**
 The ECDSA variant whose verification follows the steps of the AIR
 (src/starkware/crypto/signature/signature.py).
 */
module Ecdsa {
  import opened Common
  import opened NumberTheory
  import opened Curve

  /** The constants of the scheme; `bits` is N_ELEMENT_BITS_ECDSA. */
  datatype Scheme = Scheme(curve: Curve, bits: nat, gen: Point, shift: Point)

  ghost predicate IsScheme(S: Scheme, pt: int -> Point, sh: int) {
    && IsGroup(S.curve, pt)
    && Pow2(S.bits) < S.curve.n < S.curve.p
    && S.gen == pt(1) && S.shift == pt(sh) && Finite(sh, S.curve.n)
  }

  predicate Positive(c: Curve) {
    c.p > 0 && c.n > 0
  }

  // ---------------------------------------------------------------------------
  // Multiplication as in the AIR
  // ---------------------------------------------------------------------------

  /** `t` rounds of the loop of mimic_ec_mult_air and its closing check; None is an AssertionError. */
  function AirSteps(m: nat, point: Point, sum: Point, alpha: int, p: int, t: nat): Option<Point>
    requires p > 0
    decreases t
  {
    if t == 0 then (if m == 0 then Some(sum) else None)
    else if sum.x == point.x then None
    else
      var s := if m % 2 == 1 then EcAdd(sum, point, p) else Some(sum);
      var d := EcDouble(point, alpha, p);
      if s.None? || d.None? then None else AirSteps(m / 2, d.value, s.value, alpha, p, t - 1)
  }

  function AirMult(m: int, point: Point, shift: Point, S: Scheme): Option<Point>
    requires S.curve.p > 0
  {
    if !(0 < m < Pow2(S.bits)) then None
    else AirSteps(m, point, shift, S.curve.alpha, S.curve.p, S.bits)
  }

  /** mimic_ec_mult_air */
  method MimicEcMultAir(m: int, point: Point, shift: Point, S: Scheme) returns (r: Option<Point>)
    requires S.curve.p > 0
    ensures r == AirMult(m, point, shift, S)
  {
    if !(0 < m < Pow2(S.bits)) { return None; }
    var rest, pt, partialSum := m, point, shift;
    for i := 0 to S.bits
      invariant rest >= 0
      invariant AirMult(m, point, shift, S) == AirSteps(rest, pt, partialSum, S.curve.alpha, S.curve.p, S.bits - i)
    {
      if partialSum.x == pt.x { return None; }
      if rest % 2 == 1 {
        var sum := EcAdd(partialSum, pt, S.curve.p);
        if sum.None? { return None; }
        partialSum := sum.value;
      }
      var d := EcDouble(pt, S.curve.alpha, S.curve.p);
      if d.None? { return None; }
      pt := d.value;
      rest := rest / 2;
    }
    if rest != 0 { return None; }
    return Some(partialSum);
  }

  /** No addition of the loop meets equal x coordinates, starting from the multiples `s` and `a`. */
  ghost predicate AirClear(pt: int -> Point, m: nat, a: int, s: int, t: nat)
    decreases t
  {
    t > 0 ==> pt(s).x != pt(a).x && AirClear(pt, m / 2, 2 * a, if m % 2 == 1 then s + a else s, t - 1)
  }

  lemma BitTimes(m: nat, a: int, s: int)
    ensures s + m * a == (if m % 2 == 1 then s + a else s) + m / 2 * (2 * a)
  {
    var h := m / 2;
    assert m == 2 * h + m % 2;
    if m % 2 == 1 {
      assert (2 * h + 1) * a == h * (2 * a) + a;
    } else {
      HalfTimes(m, h, a);
    }
  }

  /** The loop succeeds exactly when no addition meets equal x coordinates, and then it multiplies. */
  lemma {:induction false} AirIs(c: Curve, pt: int -> Point, m: nat, a: int, s: int, t: nat)
    requires IsGroup(c, pt) && Finite(a, c.n) && Finite(s, c.n) && m < Pow2(t)
    ensures AirSteps(m, pt(a), pt(s), c.alpha, c.p, t)
         == if AirClear(pt, m, a, s, t) then Some(pt(s + m * a)) else None
    ensures AirClear(pt, m, a, s, t) ==> Finite(s + m * a, c.n)
    decreases t
  {
    if t > 0 && pt(s).x != pt(a).x {
      AddIs(c, pt, s, a);
      DoubleIs(c, pt, a);
      AirIs(c, pt, m / 2, 2 * a, if m % 2 == 1 then s + a else s, t - 1);
      BitTimes(m, a, s);
    }
  }

  /** Round `i` adds the point 2^i * a to the sum of the bits below. */
  ghost predicate RoundClear(pt: int -> Point, m: nat, a: int, s: int, i: nat) {
    pt(s + LowBits(m, i) * a).x != pt(Pow2(i) * a).x
  }

  lemma NextRound(pt: int -> Point, m: nat, a: int, s: int, i: nat)
    ensures RoundClear(pt, m / 2, 2 * a, if m % 2 == 1 then s + a else s, i) == RoundClear(pt, m, a, s, i + 1)
  {
    var l, b := LowBits(m / 2, i), m % 2;
    assert LowBits(m, i + 1) == b + 2 * l;
    assert (b + 2 * l) * a == b * a + l * (2 * a);
    assert Pow2(i + 1) * a == Pow2(i) * (2 * a) by { HalfTimes(Pow2(i + 1), Pow2(i), a); }
  }

  /** What the loop must avoid, round by round. */
  lemma {:induction false} AirClearIs(pt: int -> Point, m: nat, a: int, s: int, t: nat)
    ensures AirClear(pt, m, a, s, t) <==> forall i :: 0 <= i < t ==> RoundClear(pt, m, a, s, i)
    decreases t
  {
    if t > 0 {
      var s' := if m % 2 == 1 then s + a else s;
      AirClearIs(pt, m / 2, 2 * a, s', t - 1);
      forall i: nat ensures RoundClear(pt, m / 2, 2 * a, s', i) == RoundClear(pt, m, a, s, i + 1) {
        NextRound(pt, m, a, s, i);
      }
      assert RoundClear(pt, m, a, s, 0) <==> pt(s).x != pt(a).x;
      if AirClear(pt, m, a, s, t) {
        forall i | 0 <= i < t ensures RoundClear(pt, m, a, s, i) {
          if i > 0 { assert RoundClear(pt, m / 2, 2 * a, s', i - 1); }
        }
      }
      if forall i :: 0 <= i < t ==> RoundClear(pt, m, a, s, i) {
        forall i | 0 <= i < t - 1 ensures RoundClear(pt, m / 2, 2 * a, s', i) {
          assert RoundClear(pt, m, a, s, i + 1);
        }
      }
    }
  }

  // ---------------------------------------------------------------------------
  // sign
  // ---------------------------------------------------------------------------

  /** One round of the loop of `sign`; Crash is a failed assertion below it. */
  datatype Attempt = Crash | BadNonce | Good(r: int, s: int)

  function Try(S: Scheme, msg: int, priv: int, k: nat): Attempt
    requires Positive(S.curve) && k > 0
  {
    var point := EcMult(k, S.gen, S.curve.alpha, S.curve.p);
    if point.None? then Crash else TryWith(S.curve.n, S.bits, msg, priv, k, point.value.x)
  }

  /** The round once r is known. */
  function TryWith(n: int, bits: nat, msg: int, priv: int, k: nat, r: int): Attempt
    requires n > 0
  {
    if !(1 <= r < Pow2(bits)) then BadNonce
    else if (msg + r * priv) % n == 0 then BadNonce
    else
      var w := DivMod(k, msg + r * priv, n);
      if w.None? then Crash
      else if !(1 <= w.value < Pow2(bits)) then BadNonce
      else
        var s := DivMod(1, w.value, n);
        if s.None? then Crash else Good(r, s.value)
  }

  datatype Signing = Unsignable | Crashed | OutOfNonces | Signed(r: int, s: int)

  /** Each nonce is in the range of generate_k. */
  predicate Nonces(nonces: seq<nat>, n: int) {
    forall i :: 0 <= i < |nonces| ==> 0 < nonces[i] < n
  }

  /** The first nonce that is not bad decides. */
  function FirstUsable(S: Scheme, msg: int, priv: int, nonces: seq<nat>): Signing
    requires Positive(S.curve) && Nonces(nonces, S.curve.n)
  {
    if nonces == [] then OutOfNonces
    else
      match Try(S, msg, priv, nonces[0])
      case Crash => Crashed
      case Good(r, s) => Signed(r, s)
      case BadNonce => FirstUsable(S, msg, priv, nonces[1..])
  }

  /** sign, with the nonces that generate_k gives for the successive seeds. */
  method Sign(S: Scheme, msg: int, priv: int, nonces: seq<nat>) returns (res: Signing)
    requires Positive(S.curve) && Nonces(nonces, S.curve.n)
    ensures res == if 0 <= msg < Pow2(S.bits) then FirstUsable(S, msg, priv, nonces) else Unsignable
  {
    if !(0 <= msg < Pow2(S.bits)) { return Unsignable; }
    var c := S.curve;
    var i := 0;
    while i < |nonces|
      invariant 0 <= i <= |nonces|
      invariant FirstUsable(S, msg, priv, nonces) == FirstUsable(S, msg, priv, nonces[i..])
    {
      var k := nonces[i];
      assert nonces[i..][1..] == nonces[i + 1..];
      i := i + 1;
      var point := EcMult(k, S.gen, c.alpha, c.p);
      if point.None? { return Crashed; }
      var r := point.value.x;
      if !(1 <= r < Pow2(S.bits)) { continue; }
      if (msg + r * priv) % c.n == 0 { continue; }
      var w := DivMod(k, msg + r * priv, c.n);
      if w.None? { return Crashed; }
      if !(1 <= w.value < Pow2(S.bits)) { continue; }
      var s := DivMod(1, w.value, c.n);
      if s.None? { return Crashed; }
      return Signed(r, s.value);
    }
    return OutOfNonces;
  }

  // ---------------------------------------------------------------------------
  // verify
  // ---------------------------------------------------------------------------

  /** AssertionFailed is an assertion outside the try block. */
  datatype Verdict = AssertionFailed | Answer(ok: bool)

  /** verify, up to the public key. */
  function CheckedW(S: Scheme, msg: int, r: int, s: int): Option<int>
    requires Positive(S.curve)
  {
    if !(1 <= s < S.curve.n) then None
    else
      var w := DivMod(1, s, S.curve.n);
      if w.None? then None
      else if 1 <= r < Pow2(S.bits) && 1 <= w.value < Pow2(S.bits) && 0 <= msg < Pow2(S.bits) then w
      else None
  }

  function MinusShift(S: Scheme): Point {
    Point(S.shift.x, S.curve.p - S.shift.y)
  }

  /** msg * G + r * Q, as the try block computes it; None is an AssertionError. */
  function MessagePoint(S: Scheme, msg: int, r: int, key: Point): Option<Point>
    requires Positive(S.curve)
  {
    var zG := AirMult(msg, S.gen, MinusShift(S), S);
    var rQ := AirMult(r, key, S.shift, S);
    if zG.None? || rQ.None? then None else EcAdd(zG.value, rQ.value, S.curve.p)
  }

  /** w times that point. */
  function TimesW(S: Scheme, w: int, B: Point): Option<Point>
    requires Positive(S.curve)
  {
    var wB := AirMult(w, B, S.shift, S);
    if wB.None? then None else EcAdd(wB.value, MinusShift(S), S.curve.p)
  }

  /** The x coordinate that the try block computes. */
  function SignatureX(S: Scheme, msg: int, r: int, w: int, key: Point): Option<int>
    requires Positive(S.curve)
  {
    var B := MessagePoint(S, msg, r, key);
    if B.None? then None
    else
      var R := TimesW(S, w, B.value);
      if R.None? then None else Some(R.value.x)
  }

  /** verify with a point. */
  function VerifyPoint(S: Scheme, msg: int, r: int, s: int, key: Point): Verdict
    requires Positive(S.curve)
  {
    var w := CheckedW(S, msg, r, s);
    if w.None? || !OnCurve(key, S.curve) then AssertionFailed
    else Answer(SignatureX(S, msg, r, w.value, key) == Some(r))
  }

  /** The least root of `n` modulo `p` that is at least `m`. */
  function RootFrom(n: int, p: int, m: nat): (r: Option<int>)
    requires p > 0
    ensures r.Some? ==> m <= r.value < p && (r.value * r.value) % p == n
    ensures r.None? ==> forall k :: m <= k < p ==> (k * k) % p != n
    decreases p - m
  {
    if m >= p then None else if (m * m) % p == n then Some(m) else RootFrom(n, p, m + 1)
  }

  /** get_y_coordinate; None is InvalidPublicKeyError. */
  function GetY(c: Curve, x: int): Option<int>
    requires c.p > 0
  {
    RootFrom((x * x * x + c.alpha * x + c.beta) % c.p, c.p, 0)
  }

  /** verify with an x coordinate only: either point will do. */
  function VerifyX(S: Scheme, msg: int, r: int, s: int, x: int): Verdict
    requires Positive(S.curve)
  {
    if CheckedW(S, msg, r, s).None? then AssertionFailed
    else
      var y := GetY(S.curve, x);
      if y.None? then Answer(false)
      else
        var first := VerifyPoint(S, msg, r, s, Point(x, y.value));
        if first != Answer(false) then first
        else VerifyPoint(S, msg, r, s, Point(x, (-y.value) % S.curve.p))
  }

  // ---------------------------------------------------------------------------
  // What verify accepts
  // ---------------------------------------------------------------------------

  /** The constant MINUS_SHIFT_POINT is the opposite of SHIFT_POINT. */
  lemma MinusShiftIs(S: Scheme, pt: int -> Point, sh: int)
    requires IsScheme(S, pt, sh)
    ensures MinusShift(S) == pt(-sh) && Finite(-sh, S.curve.n)
  {
    var c := S.curve;
    PointFacts(c, pt, sh);
    NegFinite(sh, c.n);
    DoubleIs(c, pt, sh);
    NegResidue(S.shift.y, c.p);
    assert S.shift.y != 0 by { if S.shift.y == 0 { ModShift(0, 0, c.p); } }
    DivUnique(c.p - S.shift.y, c.p, 0, c.p - S.shift.y);
  }

  lemma AirMultIs(S: Scheme, pt: int -> Point, sh: int, m: int, a: int, s: int)
    requires IsScheme(S, pt, sh) && Finite(a, S.curve.n) && Finite(s, S.curve.n) && 0 <= m < Pow2(S.bits)
    ensures var clear := m != 0 && AirClear(pt, m, a, s, S.bits);
      && AirMult(m, pt(a), pt(s), S) == (if clear then Some(pt(s + m * a)) else None)
      && (clear ==> Finite(s + m * a, S.curve.n))
  {
    if m != 0 { AirIs(S.curve, pt, m, a, s, S.bits); }
  }

  ghost predicate MessageClear(S: Scheme, pt: int -> Point, sh: int, msg: nat, r: nat, q: int) {
    && AirClear(pt, msg, 1, -sh, S.bits)
    && AirClear(pt, r, q, sh, S.bits)
    && pt(-sh + msg).x != pt(sh + r * q).x
  }

  ghost predicate TimesClear(S: Scheme, pt: int -> Point, sh: int, w: nat, B: int) {
    AirClear(pt, w, B, sh, S.bits) && pt(sh + w * B).x != pt(-sh).x
  }

  /** No addition of the whole verification meets equal x coordinates. */
  ghost predicate VerifyClear(S: Scheme, pt: int -> Point, sh: int, msg: nat, r: nat, w: nat, q: int) {
    MessageClear(S, pt, sh, msg, r, q) && TimesClear(S, pt, sh, w, msg + r * q)
  }

  lemma MessagePointIs(S: Scheme, pt: int -> Point, sh: int, msg: nat, r: nat, q: int)
    requires IsScheme(S, pt, sh) && Finite(q, S.curve.n)
    requires msg < Pow2(S.bits) && 1 <= r < Pow2(S.bits)
    ensures var clear := msg != 0 && MessageClear(S, pt, sh, msg, r, q);
      && MessagePoint(S, msg, r, pt(q)) == (if clear then Some(pt(msg + r * q)) else None)
      && (clear ==> Finite(msg + r * q, S.curve.n))
  {
    MinusShiftIs(S, pt, sh);
    DivUnique(1, S.curve.n, 0, 1);
    AirMultIs(S, pt, sh, msg, 1, -sh);
    AirMultIs(S, pt, sh, r, q, sh);
    if msg != 0 && AirClear(pt, msg, 1, -sh, S.bits) && AirClear(pt, r, q, sh, S.bits) {
      AddIs(S.curve, pt, -sh + msg, sh + r * q);
      assert -sh + msg + (sh + r * q) == msg + r * q;
    }
  }

  lemma TimesWIs(S: Scheme, pt: int -> Point, sh: int, w: nat, B: int)
    requires IsScheme(S, pt, sh) && Finite(B, S.curve.n) && 1 <= w < Pow2(S.bits)
    ensures TimesW(S, w, pt(B)) == if TimesClear(S, pt, sh, w, B) then Some(pt(w * B)) else None
  {
    MinusShiftIs(S, pt, sh);
    AirMultIs(S, pt, sh, w, B, sh);
    if AirClear(pt, w, B, sh, S.bits) {
      AddIs(S.curve, pt, sh + w * B, -sh);
      assert sh + w * B + -sh == w * B;
    }
  }

  lemma SignatureXIs(S: Scheme, pt: int -> Point, sh: int, msg: nat, r: nat, w: nat, q: int)
    requires IsScheme(S, pt, sh) && Finite(q, S.curve.n)
    requires msg < Pow2(S.bits) && 1 <= r < Pow2(S.bits) && 1 <= w < Pow2(S.bits)
    ensures SignatureX(S, msg, r, w, pt(q))
         == if msg != 0 && VerifyClear(S, pt, sh, msg, r, w, q) then Some(pt(w * (msg + r * q)).x) else None
  {
    var B := msg + r * q;
    MessagePointIs(S, pt, sh, msg, r, q);
    if msg != 0 && MessageClear(S, pt, sh, msg, r, q) { TimesWIs(S, pt, sh, w, B); }
  }

  /** Acceptance in terms of multiples of the generator. */
  ghost predicate Accepts(S: Scheme, pt: int -> Point, sh: int, msg: nat, r: nat, w: nat, q: int) {
    msg != 0 && VerifyClear(S, pt, sh, msg, r, w, q) && pt(w * (msg + r * q)).x == r
  }

  /** verify, for the key of any private key `q`, on arguments that pass the range checks. */
  lemma VerifyPointIs(S: Scheme, pt: int -> Point, sh: int, msg: int, r: int, s: int, q: int)
    requires IsScheme(S, pt, sh) && Finite(q, S.curve.n)
    ensures var w := CheckedW(S, msg, r, s);
      VerifyPoint(S, msg, r, s, pt(q))
        == if w.None? then AssertionFailed else Answer(Accepts(S, pt, sh, msg, r, w.value, q))
  {
    var w := CheckedW(S, msg, r, s);
    PointFacts(S.curve, pt, q);
    if w.Some? { SignatureXIs(S, pt, sh, msg, r, w.value, q); }
  }

  /** The multiples of the generator are all points of the curve but infinity. */
  ghost predicate Exhausts(c: Curve, pt: int -> Point)
    requires c.p > 0 && c.n > 0
  {
    forall a: Point {:trigger OnCurve(a, c)} ::
      ReducedPoint(a, c.p) && OnCurve(a, c) ==> exists q :: Finite(q, c.n) && pt(q) == a
  }

  /** verify, for any point as the key: off the curve it raises, on the curve it is the key of some `q`. */
  lemma VerifyAnyKey(S: Scheme, pt: int -> Point, sh: int, msg: int, r: int, s: int, key: Point) returns (q: int)
    requires IsScheme(S, pt, sh) && Exhausts(S.curve, pt) && ReducedPoint(key, S.curve.p)
    ensures OnCurve(key, S.curve) ==> Finite(q, S.curve.n) && key == pt(q)
    ensures var w := CheckedW(S, msg, r, s);
      VerifyPoint(S, msg, r, s, key)
        == if w.None? || !OnCurve(key, S.curve) then AssertionFailed else Answer(Accepts(S, pt, sh, msg, r, w.value, q))
  {
    q := 1;
    if OnCurve(key, S.curve) {
      q :| Finite(q, S.curve.n) && pt(q) == key;
      VerifyPointIs(S, pt, sh, msg, r, s, q);
    }
  }

  // ---------------------------------------------------------------------------
  // Signatures are accepted
  // ---------------------------------------------------------------------------

  /** w is recovered from s. */
  lemma InverseTwice(w: int, n: int)
    requires Prime(n) && 1 <= w < n
    ensures var s := DivMod(1, w, n);
      s.Some? && 1 <= s.value < n && DivMod(1, s.value, n) == Some(w)
  {
    DivUnique(w, n, 0, w);
    DivUnique(1, n, 0, 1);
    DivModCorrect(1, w, n);
    var s := DivMod(1, w, n).value;
    assert s != 0;
    DivUnique(s, n, 0, s);
    assert w * s == s * w;
    DivModUnique(1, s, n, w);
  }

  lemma TryWithIs(n: int, bits: nat, msg: int, priv: int, k: nat, r: int)
    requires Prime(n) && Pow2(bits) < n
    ensures var t := TryWith(n, bits, msg, priv, k, r);
      && t != Crash
      && (t.Good? ==>
            && t.r == r && 1 <= r < Pow2(bits) && 1 <= t.s < n
            && var w := DivMod(1, t.s, n);
               w.Some? && 1 <= w.value < Pow2(bits) && Cong(w.value * (msg + r * priv), k, n))
  {
    var d := msg + r * priv;
    if 1 <= r < Pow2(bits) && d % n != 0 {
      DivModCorrect(k, d, n);
      var w := DivMod(k, d, n).value;
      assert d * w == w * d;
      if 1 <= w < Pow2(bits) {
        InverseTwice(w, n);
      }
    }
  }

  /** `w` is the number below the bound that takes the message point to the nonce. */
  predicate IsW(n: int, bits: nat, msg: int, priv: int, k: int, r: int, w: int)
    requires n > 0
  {
    1 <= w < Pow2(bits) && Cong(w * (msg + r * priv), k, n)
  }

  /** A nonce is used exactly if r and w are in range and the message point is finite. */
  lemma NonceUsed(n: int, bits: nat, msg: int, priv: int, k: nat, r: int)
    requires Prime(n) && Pow2(bits) < n
    ensures TryWith(n, bits, msg, priv, k, r).Good? <==>
      1 <= r < Pow2(bits) && (msg + r * priv) % n != 0 && exists w :: IsW(n, bits, msg, priv, k, r, w)
  {
    var d := msg + r * priv;
    if 1 <= r < Pow2(bits) && d % n != 0 {
      TryWithIs(n, bits, msg, priv, k, r);
      var t := TryWith(n, bits, msg, priv, k, r);
      if t.Good? {
        assert IsW(n, bits, msg, priv, k, r, DivMod(1, t.s, n).value);
      } else if w :| IsW(n, bits, msg, priv, k, r, w) {
        WFound(n, bits, msg, priv, k, r, d, w);
      }
    }
  }

  lemma WFound(n: int, bits: nat, msg: int, priv: int, k: nat, r: int, d: int, w: int)
    requires Prime(n) && Pow2(bits) < n && d == msg + r * priv && d % n != 0 && 1 <= r < Pow2(bits)
    requires IsW(n, bits, msg, priv, k, r, w)
    ensures TryWith(n, bits, msg, priv, k, r).Good?
  {
    Commute(d, w);
    DivModUnique(k, d, n, w);
    DivUnique(w, n, 0, w);
    DivModCorrect(1, w, n);
  }

  /** A round of `sign` never fails, and a signature it returns ties the nonce to the key. The nonce is
      used exactly if r and w are in range and the message point is finite. */
  lemma TryIs(S: Scheme, pt: int -> Point, sh: int, msg: int, priv: int, k: nat)
    requires IsScheme(S, pt, sh) && 0 < k < S.curve.n && 0 <= msg < Pow2(S.bits)
    ensures var t := Try(S, msg, priv, k);
      && t != Crash
      && (t.Good? ==>
            var w := CheckedW(S, msg, t.r, t.s);
            w.Some? && t.r == pt(k).x && Cong(w.value * (msg + t.r * priv), k, S.curve.n))
      && (t.Good? <==>
            && 1 <= pt(k).x < Pow2(S.bits) && (msg + pt(k).x * priv) % S.curve.n != 0
            && exists w :: IsW(S.curve.n, S.bits, msg, priv, k, pt(k).x, w))
  {
    DivUnique(1, S.curve.n, 0, 1);
    MultIs(S.curve, pt, k, 1);
    NonceUsed(S.curve.n, S.bits, msg, priv, k, pt(k).x);
    TryWithIs(S.curve.n, S.bits, msg, priv, k, pt(k).x);
  }

  /**
   Main result: what one nonce signs, `verify` accepts exactly when the message is not 0 and no
   addition meets equal x coordinates.
   */
  lemma SignedIsAccepted(S: Scheme, pt: int -> Point, sh: int, msg: int, priv: int, k: nat)
    requires IsScheme(S, pt, sh) && 0 < k < S.curve.n && 0 <= msg < Pow2(S.bits) && 0 < priv < S.curve.n
    requires Try(S, msg, priv, k).Good?
    ensures var t := Try(S, msg, priv, k);
      var w := CheckedW(S, msg, t.r, t.s);
      && w.Some?
      && VerifyPoint(S, msg, t.r, t.s, pt(priv))
           == Answer(msg != 0 && VerifyClear(S, pt, sh, msg, t.r, w.value, priv))
  {
    var t := Try(S, msg, priv, k);
    TryIs(S, pt, sh, msg, priv, k);
    DivUnique(priv, S.curve.n, 0, priv);
    VerifyPointIs(S, pt, sh, msg, t.r, t.s, priv);
    var w := CheckedW(S, msg, t.r, t.s).value;
    SamePoint(S.curve, pt, w * (msg + t.r * priv), k);
  }

  /** `sign` never fails; whatever it returns, for any nonces, verifies as above. */
  lemma {:induction false} SignThenVerify(S: Scheme, pt: int -> Point, sh: int, msg: int, priv: int, nonces: seq<nat>)
    requires IsScheme(S, pt, sh) && 0 <= msg < Pow2(S.bits) && 0 < priv < S.curve.n && Nonces(nonces, S.curve.n)
    ensures var sig := FirstUsable(S, msg, priv, nonces);
      var key := EcMult(priv, S.gen, S.curve.alpha, S.curve.p);
      && sig != Crashed && key == Some(pt(priv))
      && (sig.Signed? ==>
            var w := CheckedW(S, msg, sig.r, sig.s);
            && w.Some?
            && VerifyPoint(S, msg, sig.r, sig.s, key.value)
                 == Answer(msg != 0 && VerifyClear(S, pt, sh, msg, sig.r, w.value, priv)))
    decreases |nonces|
  {
    DivUnique(1, S.curve.n, 0, 1);
    MultIs(S.curve, pt, priv, 1);
    if nonces != [] {
      TryIs(S, pt, sh, msg, priv, nonces[0]);
      match Try(S, msg, priv, nonces[0])
      case Good(_, _) => SignedIsAccepted(S, pt, sh, msg, priv, nonces[0]);
      case BadNonce => SignThenVerify(S, pt, sh, msg, priv, nonces[1..]);
    }
  }

  /** The message 0 can be signed, and no signature of it is accepted. */
  lemma ZeroIsRejected(S: Scheme, pt: int -> Point, sh: int, r: int, s: int, q: int)
    requires IsScheme(S, pt, sh) && Finite(q, S.curve.n)
    ensures VerifyPoint(S, 0, r, s, pt(q)) != Answer(true)
  {
    VerifyPointIs(S, pt, sh, 0, r, s, q);
  }

  // ---------------------------------------------------------------------------
  // Keys given by their x coordinate
  // ---------------------------------------------------------------------------

  lemma CurveEquation(c: Curve, a: Point)
    requires c.p > 0
    ensures OnCurve(a, c) <==> (a.y * a.y) % c.p == (a.x * a.x * a.x + c.alpha * a.x + c.beta) % c.p
  {
    var cube, rest := a.x * a.x * a.x, c.alpha * a.x + c.beta;
    CongSelf(cube, c.p);
    CongAdd(cube % c.p, cube, rest, rest, c.p);
  }

  lemma NegTwice(y: int, p: int)
    requires 0 <= y < p
    ensures (-((-y) % p)) % p == y
  {
    CongSelf(-y, p);
    CongAdd(0, 0, (-y) % p, -y, p);
    DivUnique(y, p, 0, y);
  }

  /** get_y_coordinate finds the point or its opposite. */
  lemma GetYIs(c: Curve, pt: int -> Point, q: int)
    requires IsGroup(c, pt) && Finite(q, c.n)
    ensures var x := pt(q).x;
      var y := GetY(c, x);
      && y.Some?
      && var (P, N) := (Point(x, y.value), Point(x, (-y.value) % c.p));
         (P == pt(q) && N == pt(-q)) || (P == pt(-q) && N == pt(q))
  {
    PointFacts(c, pt, q);
    CurveEquation(c, pt(q));
    var x, y0 := pt(q).x, pt(q).y;
    var y := GetY(c, x);
    assert y.Some?;
    SameSquare(y.value, y0, c.p);
    NegTwice(y0, c.p);
  }

  /** verify with an x coordinate accepts exactly what it accepts for one of the two points. */
  lemma VerifyXIs(S: Scheme, pt: int -> Point, sh: int, msg: int, r: int, s: int, q: int)
    requires IsScheme(S, pt, sh) && Finite(q, S.curve.n)
    ensures var w := CheckedW(S, msg, r, s);
      VerifyX(S, msg, r, s, pt(q).x)
        == if w.None? then AssertionFailed
           else Answer(Accepts(S, pt, sh, msg, r, w.value, q) || Accepts(S, pt, sh, msg, r, w.value, -q))
  {
    GetYIs(S.curve, pt, q);
    NegFinite(q, S.curve.n);
    VerifyPointIs(S, pt, sh, msg, r, s, q);
    VerifyPointIs(S, pt, sh, msg, r, s, -q);
  }

  /** A number that is the x coordinate of no point is rejected without an exception. */
  lemma VerifyXInvalid(S: Scheme, msg: int, r: int, s: int, x: int)
    requires Positive(S.curve)
    ensures (forall y :: 0 <= y < S.curve.p ==> !OnCurve(Point(x, y), S.curve)) ==>
      VerifyX(S, msg, r, s, x) == if CheckedW(S, msg, r, s).None? then AssertionFailed else Answer(false)
  {
    var y := GetY(S.curve, x);
    if y.Some? { CurveEquation(S.curve, Point(x, y.value)); }
  }
}
