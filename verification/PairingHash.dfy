/** A hash that is collision free in the sense of `CollisionFree`: the hypothesis can be met. With it,
    a tree whose decoding goes wrong. */
module PairingHash {
  import opened Common
  import opened PatriciaEncoding

  function ZigZag(x: int): nat { if x >= 0 then 2 * x else -2 * x - 1 }

  /** 2^a * (2b + 1). */
  function Pair(a: nat, b: nat): (r: nat)
    ensures r > 0
  {
    if a == 0 then 2 * b + 1 else 2 * Pair(a - 1, b)
  }

  lemma {:induction false} PairInjective(a: nat, b: nat, c: nat, d: nat)
    requires Pair(a, b) == Pair(c, d)
    ensures a == c && b == d
  {
    if a > 0 && c > 0 { PairInjective(a - 1, b, c - 1, d); }
  }

  function Scaled(n: nat): Hash {
    (a: int, b: int) => (n + 1) * Pair(ZigZag(a), ZigZag(b))
  }

  lemma SameParts(n: nat, x: nat, k: nat, y: nat, l: nat)
    requires k <= n && l <= n && (n + 1) * x + k == (n + 1) * y + l
    ensures x == y && k == l
  {
    DivUnique((n + 1) * x + k, n + 1, x, k);
    DivUnique((n + 1) * y + l, n + 1, y, l);
  }

  lemma ScaledInjective(n: nat, a: int, b: int, k: nat, c: int, d: int, l: nat)
    requires k <= n && l <= n && Scaled(n)(a, b) + k == Scaled(n)(c, d) + l
    ensures a == c && b == d && k == l
  {
    SameParts(n, Pair(ZigZag(a), ZigZag(b)), k, Pair(ZigZag(c), ZigZag(d)), l);
    PairInjective(ZigZag(a), ZigZag(b), ZigZag(c), ZigZag(d));
  }

  lemma ScaledIsCollisionFree(n: nat)
    ensures CollisionFree(Scaled(n), n)
  {
    var H := Scaled(n);
    forall f: NodeFact, g: NodeFact | ValidFact(f, n) && ValidFact(g, n) && HashFact(H, f) == HashFact(H, g)
      ensures f == g
    {
      var (a, b, k) := match f case BinaryFact(x, y) => (x, y, 0) case EdgeFact(x, p, len) => (x, p as int, len);
      var (c, d, l) := match g case BinaryFact(x, y) => (x, y, 0) case EdgeFact(x, p, len) => (x, p as int, len);
      ScaledInjective(n, a, b, k, c, d, l);
    }
    forall f: NodeFact | ValidFact(f, n) ensures HashFact(H, f) != 0 {
      var (a, b) := match f case BinaryFact(x, y) => (x, y) case EdgeFact(x, p, _) => (x, p as int);
      assert H(a, b) > 0;
    }
  }

  /** A leaf with the value 9 is the hash of the recorded edge (1, 0, 1): in the tree of the leaves 9
      and 7, `get_children` of the root gives that edge in place of the leaf. */
  lemma LeafTakenForEdge()
    ensures var H, e := Scaled(1), EdgeFact(1, 0, 1);
      var s := map[9 := e, H(9, 7) := BinaryFact(9, 7)];
      && CollisionFree(H, 1) && WellKeyed(H, s, 1) && StoredBelow(H, s, [9, 7], 1)
      && LeafReadsAsEdge(s, 9)
      && Encode(H, LeftHalf([9, 7], 1), 0) == Triplet(0, 0, 9) && Encode(H, RightHalf([9, 7], 1), 0) == Triplet(0, 0, 7)
      && GetChildren(s, Encode(H, [9, 7], 1)) == Some((Triplet(1, 0, 1), Triplet(0, 0, 7)))
  {
    ScaledIsCollisionFree(1);
    var H := Scaled(1);
    assert Pair(2, 0) == 4 by { assert Pair(1, 0) == 2; }
    assert HashFact(H, EdgeFact(1, 0, 1)) == 9;
    assert H(9, 7) % 2 == 0 && H(9, 7) > 0;
    assert Encode(H, LeftHalf([9, 7], 1), 0) == Triplet(0, 0, 9);
    assert Encode(H, RightHalf([9, 7], 1), 0) == Triplet(0, 0, 7);
  }
}
