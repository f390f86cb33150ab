/**
 The Merkle-Patricia encoding of a full array of leaves
 (src/starkware/cairo/common/patricia_utils.py).

 A node is a triplet (length, path, bottom): a virtual edge of `length` steps along `path`
 down to a node whose hash is `bottom`; (0, 0, 0) is the empty node.
 */
module PatriciaEncoding {
  import opened Common

  type Hash = (int, int) -> int

  datatype Triplet = Triplet(length: nat, path: nat, bottom: int)

  const EMPTY := Triplet(0, 0, 0)

  /** The preimage of a node hash: the two children, or the three parts of an edge. */
  datatype NodeFact =
    | BinaryFact(left: int, right: int)
    | EdgeFact(bottom: int, path: nat, length: nat)

  /** The facts that the constructors accept, with edges no longer than `n`. */
  predicate ValidFact(f: NodeFact, n: nat) {
    match f
    case BinaryFact(l, r) => l != 0 && r != 0
    case EdgeFact(b, p, len) => 0 < len <= n && p < Pow2(len)
  }

  function HashFact(H: Hash, f: NodeFact): int {
    match f
    case BinaryFact(l, r) => H(l, r)
    case EdgeFact(b, p, len) => H(b, p) + len
  }

  function HashNode(H: Hash, e: Triplet): int {
    if e.length == 0 then e.bottom else H(e.bottom, e.path) + e.length
  }

  ghost predicate SameHash(H: Hash, f: NodeFact, g: NodeFact) { HashFact(H, f) == HashFact(H, g) }

  ghost predicate ZeroHash(H: Hash, f: NodeFact) { HashFact(H, f) == 0 }

  /** The hypothesis on the hash: no valid fact hashes to 0 and no two to the same value. */
  ghost predicate CollisionFree(H: Hash, n: nat) {
    && (forall f: NodeFact {:trigger ZeroHash(H, f)} :: ValidFact(f, n) ==> !ZeroHash(H, f))
    && (forall f: NodeFact, g: NodeFact {:trigger SameHash(H, f, g)} ::
          ValidFact(f, n) && ValidFact(g, n) && SameHash(H, f, g) ==> f == g)
  }

  lemma NoCollision(H: Hash, n: nat, f: NodeFact, g: NodeFact)
    requires CollisionFree(H, n) && ValidFact(f, n) && ValidFact(g, n)
    ensures HashFact(H, f) == HashFact(H, g) ==> f == g
    ensures HashFact(H, f) != 0
  {
    assert SameHash(H, f, g) <==> HashFact(H, f) == HashFact(H, g);
    assert !ZeroHash(H, f);
  }

  /** The parent of two sibling nodes. */
  function Join(H: Hash, l: Triplet, r: Triplet): Triplet {
    if l == EMPTY && r == EMPTY then EMPTY
    else if l == EMPTY then Triplet(r.length + 1, r.path + Pow2(r.length), r.bottom)
    else if r == EMPTY then Triplet(l.length + 1, l.path, l.bottom)
    else Triplet(0, 0, H(HashNode(H, l), HashNode(H, r)))
  }

  function LeftHalf(leaves: seq<int>, h: nat): seq<int>
    requires 0 < h && |leaves| == Pow2(h)
    ensures |LeftHalf(leaves, h)| == Pow2(h - 1)
  {
    leaves[..Pow2(h - 1)]
  }

  function RightHalf(leaves: seq<int>, h: nat): seq<int>
    requires 0 < h && |leaves| == Pow2(h)
    ensures |RightHalf(leaves, h)| == Pow2(h - 1)
  {
    leaves[Pow2(h - 1)..]
  }

  /** The node of a whole subtree, by recursion on its two halves. */
  function Encode(H: Hash, leaves: seq<int>, h: nat): Triplet
    requires |leaves| == Pow2(h)
    decreases h
  {
    if h == 0 then Triplet(0, 0, leaves[0])
    else Join(H, Encode(H, LeftHalf(leaves, h), h - 1), Encode(H, RightHalf(leaves, h), h - 1))
  }

  function Root(H: Hash, leaves: seq<int>, h: nat): int
    requires |leaves| == Pow2(h)
  {
    HashNode(H, Encode(H, leaves, h))
  }

  ghost predicate AllZero(leaves: seq<int>) {
    forall i :: 0 <= i < |leaves| ==> leaves[i] == 0
  }

  lemma AllZeroHalves(leaves: seq<int>, h: nat)
    requires 0 < h && |leaves| == Pow2(h)
    ensures AllZero(leaves) <==> AllZero(LeftHalf(leaves, h)) && AllZero(RightHalf(leaves, h))
  {
    var m := Pow2(h - 1);
    if AllZero(LeftHalf(leaves, h)) && AllZero(RightHalf(leaves, h)) {
      forall i | 0 <= i < |leaves| ensures leaves[i] == 0 {
        if i >= m { assert leaves[i] == RightHalf(leaves, h)[i - m]; } else { assert leaves[i] == LeftHalf(leaves, h)[i]; }
      }
    }
  }

  lemma {:induction false} ZeroEncodes(H: Hash, leaves: seq<int>, h: nat)
    requires |leaves| == Pow2(h) && AllZero(leaves)
    ensures Encode(H, leaves, h) == EMPTY
    decreases h
  {
    if h > 0 {
      AllZeroHalves(leaves, h);
      ZeroEncodes(H, LeftHalf(leaves, h), h - 1);
      ZeroEncodes(H, RightHalf(leaves, h), h - 1);
    }
  }

  /** All leaves but leaf `k` are zero. */
  ghost predicate Only(leaves: seq<int>, k: nat) {
    k < |leaves| && forall i :: 0 <= i < |leaves| && i != k ==> leaves[i] == 0
  }

  lemma OnlyLeft(leaves: seq<int>, h: nat, k: nat)
    requires 0 < h && |leaves| == Pow2(h) && Only(leaves, k) && k < Pow2(h - 1)
    ensures Only(LeftHalf(leaves, h), k) && LeftHalf(leaves, h)[k] == leaves[k] && AllZero(RightHalf(leaves, h))
  {}

  lemma OnlyRight(leaves: seq<int>, h: nat, k: nat, m: nat)
    requires 0 < h && |leaves| == Pow2(h) && Only(leaves, k) && m == Pow2(h - 1) <= k
    ensures Only(RightHalf(leaves, h), k - m) && RightHalf(leaves, h)[k - m] == leaves[k] && AllZero(LeftHalf(leaves, h))
  {
    forall i | 0 <= i < m && i != k - m ensures RightHalf(leaves, h)[i] == 0 {
      assert RightHalf(leaves, h)[i] == leaves[m + i];
    }
  }

  /** A single non-zero leaf is one edge: its position is the path from the root. */
  lemma {:induction false} SingleLeaf(H: Hash, leaves: seq<int>, h: nat, k: nat)
    requires |leaves| == Pow2(h) && Only(leaves, k) && leaves[k] != 0
    ensures Encode(H, leaves, h) == Triplet(h, k, leaves[k])
    ensures Root(H, leaves, h) == if h == 0 then leaves[k] else H(leaves[k], k) + h
    decreases h
  {
    if h > 0 {
      var l, r, m := LeftHalf(leaves, h), RightHalf(leaves, h), Pow2(h - 1);
      if k < m {
        OnlyLeft(leaves, h, k);
        SingleLeaf(H, l, h - 1, k);
        ZeroEncodes(H, r, h - 1);
      } else {
        OnlyRight(leaves, h, k, m);
        SingleLeaf(H, r, h - 1, k - m);
        ZeroEncodes(H, l, h - 1);
      }
    }
  }

  /** The path fits the length of the edge, and the edge fits the height. */
  ghost predicate Fits(e: Triplet, h: nat) {
    e.path < Pow2(e.length) && e.length <= h
  }

  lemma JoinFits(H: Hash, l: Triplet, r: Triplet, h: nat)
    requires Fits(l, h) && Fits(r, h)
    ensures Fits(Join(H, l, r), h + 1)
  {}

  /** So it is in every node of every tree, whatever the hash. */
  lemma {:induction false} EncodeFits(H: Hash, leaves: seq<int>, h: nat)
    requires |leaves| == Pow2(h)
    ensures Fits(Encode(H, leaves, h), h)
    decreases h
  {
    if h > 0 {
      var l, r := LeftHalf(leaves, h), RightHalf(leaves, h);
      EncodeFits(H, l, h - 1);
      EncodeFits(H, r, h - 1);
      JoinFits(H, Encode(H, l, h - 1), Encode(H, r, h - 1), h - 1);
    }
  }

  /** Bottom and hash tell whether a node is empty. */
  ghost predicate TellsEmpty(H: Hash, e: Triplet, empty: bool) {
    (e == EMPTY <==> empty) && (e == EMPTY <==> e.bottom == 0) && (e == EMPTY <==> HashNode(H, e) == 0)
  }

  lemma JoinTells(H: Hash, l: Triplet, le: bool, r: Triplet, re: bool, n: nat)
    requires CollisionFree(H, n) && TellsEmpty(H, l, le) && TellsEmpty(H, r, re) && Fits(Join(H, l, r), n)
    ensures TellsEmpty(H, Join(H, l, r), le && re)
  {
    var e := Join(H, l, r);
    if l != EMPTY && r != EMPTY {
      var f := BinaryFact(HashNode(H, l), HashNode(H, r));
      NoCollision(H, n, f, f);
    } else if e.length > 0 {
      var f := EdgeFact(e.bottom, e.path, e.length);
      NoCollision(H, n, f, f);
    }
  }

  lemma {:induction false} EncodeTells(H: Hash, leaves: seq<int>, h: nat, n: nat)
    requires CollisionFree(H, n) && h <= n && |leaves| == Pow2(h)
    ensures TellsEmpty(H, Encode(H, leaves, h), AllZero(leaves))
    decreases h
  {
    if h > 0 {
      var l, r := LeftHalf(leaves, h), RightHalf(leaves, h);
      EncodeTells(H, l, h - 1, n);
      EncodeTells(H, r, h - 1, n);
      AllZeroHalves(leaves, h);
      EncodeFits(H, leaves, h);
      JoinTells(H, Encode(H, l, h - 1), AllZero(l), Encode(H, r, h - 1), AllZero(r), n);
    }
  }

  /** Under a collision-free hash a node is empty exactly when its bottom is 0, when its hash is 0,
      and when all its leaves are 0. */
  lemma EncodeShape(H: Hash, leaves: seq<int>, h: nat, n: nat)
    requires CollisionFree(H, n) && h <= n
    requires |leaves| == Pow2(h)
    ensures var e := Encode(H, leaves, h);
      && e.path < Pow2(e.length) && e.length <= h
      && (e == EMPTY <==> AllZero(leaves)) && (e == EMPTY <==> e.bottom == 0)
      && (e == EMPTY <==> HashNode(H, e) == 0)
      && (e.length > 0 ==> ValidFact(EdgeFact(e.bottom, e.path, e.length), n))
  {
    EncodeFits(H, leaves, h);
    EncodeTells(H, leaves, h, n);
  }

  /** Two non-empty halves make a binary node over their roots. */
  lemma BothHalves(H: Hash, leaves: seq<int>, h: nat, n: nat)
    requires CollisionFree(H, n) && 0 < h <= n && |leaves| == Pow2(h)
    requires !AllZero(LeftHalf(leaves, h)) && !AllZero(RightHalf(leaves, h))
    ensures Root(H, leaves, h) == H(Root(H, LeftHalf(leaves, h), h - 1), Root(H, RightHalf(leaves, h), h - 1))
  {
    EncodeShape(H, LeftHalf(leaves, h), h - 1, n);
    EncodeShape(H, RightHalf(leaves, h), h - 1, n);
  }

  /** Equal hashes at equal heights mean equal nodes. */
  lemma SameHashSameNode(H: Hash, a: seq<int>, b: seq<int>, h: nat, n: nat)
    requires CollisionFree(H, n) && h <= n
    requires |a| == |b| == Pow2(h)
    requires Root(H, a, h) == Root(H, b, h)
    ensures Encode(H, a, h) == Encode(H, b, h)
  {
    EncodeShape(H, a, h, n);
    EncodeShape(H, b, h, n);
    var ea, eb := Encode(H, a, h), Encode(H, b, h);
    if ea.length > 0 && eb.length > 0 {
      NoCollision(H, n, EdgeFact(ea.bottom, ea.path, ea.length), EdgeFact(eb.bottom, eb.path, eb.length));
    } else if ea.length > 0 {
      EdgeIsNotBottom(H, ea, b, h, n);
    } else if eb.length > 0 {
      EdgeIsNotBottom(H, eb, a, h, n);
    }
  }

  /** A node that is not an edge never has the hash of an edge. */
  lemma {:induction false} EdgeIsNotBottom(H: Hash, e: Triplet, leaves: seq<int>, h: nat, n: nat)
    requires CollisionFree(H, n) && 0 < h <= n
    requires |leaves| == Pow2(h)
    requires e.length > 0 && ValidFact(EdgeFact(e.bottom, e.path, e.length), n)
    requires Encode(H, leaves, h).length == 0
    ensures HashNode(H, e) != Encode(H, leaves, h).bottom
  {
    var l, r := LeftHalf(leaves, h), RightHalf(leaves, h);
    EncodeShape(H, l, h - 1, n);
    EncodeShape(H, r, h - 1, n);
    var el, er := Encode(H, l, h - 1), Encode(H, r, h - 1);
    var f := EdgeFact(e.bottom, e.path, e.length);
    NoCollision(H, n, f, f);
    if el != EMPTY && er != EMPTY {
      NoCollision(H, n, f, BinaryFact(HashNode(H, el), HashNode(H, er)));
    }
  }

  lemma SameRootHalves(H: Hash, a: seq<int>, b: seq<int>, h: nat, n: nat)
    requires CollisionFree(H, n) && 0 < h <= n
    requires |a| == |b| == Pow2(h)
    requires Root(H, a, h) == Root(H, b, h)
    ensures Root(H, LeftHalf(a, h), h - 1) == Root(H, LeftHalf(b, h), h - 1)
    ensures Root(H, RightHalf(a, h), h - 1) == Root(H, RightHalf(b, h), h - 1)
  {
    SameHashSameNode(H, a, b, h, n);
    var (al, ar) := (LeftHalf(a, h), RightHalf(a, h));
    var (bl, br) := (LeftHalf(b, h), RightHalf(b, h));
    NodeCanonical(H, al, h - 1, n);
    NodeCanonical(H, ar, h - 1, n);
    NodeCanonical(H, bl, h - 1, n);
    NodeCanonical(H, br, h - 1, n);
    JoinInjective(H, Encode(H, al, h - 1), Encode(H, ar, h - 1), Encode(H, bl, h - 1), Encode(H, br, h - 1), n);
  }

  /** Equal roots imply equal leaf arrays. */
  lemma {:induction false} RootInjective(H: Hash, a: seq<int>, b: seq<int>, h: nat, n: nat)
    requires CollisionFree(H, n) && h <= n
    requires |a| == |b| == Pow2(h)
    requires Root(H, a, h) == Root(H, b, h)
    ensures a == b
    decreases h
  {
    if h > 0 {
      SameRootHalves(H, a, b, h, n);
      RootInjective(H, LeftHalf(a, h), LeftHalf(b, h), h - 1, n);
      RootInjective(H, RightHalf(a, h), RightHalf(b, h), h - 1, n);
      assert a == LeftHalf(a, h) + RightHalf(a, h) && b == LeftHalf(b, h) + RightHalf(b, h);
    }
  }

  /** What `EncodeShape` gives of a single node. */
  ghost predicate Canonical(H: Hash, e: Triplet) {
    e.path < Pow2(e.length) && (e == EMPTY <==> e.bottom == 0) && (e == EMPTY <==> HashNode(H, e) == 0)
  }

  lemma NodeCanonical(H: Hash, leaves: seq<int>, h: nat, n: nat)
    requires CollisionFree(H, n) && h <= n && |leaves| == Pow2(h)
    ensures Canonical(H, Encode(H, leaves, h))
  {
    EncodeShape(H, leaves, h, n);
  }

  lemma JoinInjective(H: Hash, l: Triplet, r: Triplet, l': Triplet, r': Triplet, n: nat)
    requires CollisionFree(H, n)
    requires Canonical(H, l) && Canonical(H, r) && Canonical(H, l') && Canonical(H, r')
    requires Join(H, l, r) == Join(H, l', r')
    ensures HashNode(H, l) == HashNode(H, l') && HashNode(H, r) == HashNode(H, r')
  {
    var f := BinaryFact(HashNode(H, l), HashNode(H, r));
    var g := BinaryFact(HashNode(H, l'), HashNode(H, r'));
    if l != EMPTY && r != EMPTY {
      NoCollision(H, n, f, f);
      if l' != EMPTY && r' != EMPTY { NoCollision(H, n, f, g); }
    } else if l' != EMPTY && r' != EMPTY {
      NoCollision(H, n, g, g);
    }
  }

  // ---------------------------------------------------------------------------
  // Preimages and decoding
  // ---------------------------------------------------------------------------

  type Preimages = map<int, NodeFact>

  /** Every entry is a valid fact stored under its own hash. */
  ghost predicate WellKeyed(H: Hash, s: Preimages, n: nat) {
    forall k :: k in s ==> ValidFact(s[k], n) && HashFact(H, s[k]) == k
  }

  ghost predicate Holds(H: Hash, s: Preimages, f: NodeFact) {
    HashFact(H, f) in s && s[HashFact(H, f)] == f
  }

  /** `s` holds all preimages of the tree, its root edge (if any) included. */
  ghost predicate Stored(H: Hash, s: Preimages, leaves: seq<int>, h: nat)
    requires |leaves| == Pow2(h)
    decreases h, 1
  {
    var e := Encode(H, leaves, h);
    && (e.length > 0 ==> Holds(H, s, EdgeFact(e.bottom, e.path, e.length)))
    && StoredBelow(H, s, leaves, h)
  }

  /** `s` holds all preimages of the tree below its root edge. */
  ghost predicate StoredBelow(H: Hash, s: Preimages, leaves: seq<int>, h: nat)
    requires |leaves| == Pow2(h)
    decreases h, 0
  {
    h > 0 ==>
      var l, r := LeftHalf(leaves, h), RightHalf(leaves, h);
      var el, er := Encode(H, l, h - 1), Encode(H, r, h - 1);
      if el == EMPTY then StoredBelow(H, s, r, h - 1)
      else if er == EMPTY then StoredBelow(H, s, l, h - 1)
      else
        && Holds(H, s, BinaryFact(HashNode(H, el), HashNode(H, er)))
        && Stored(H, s, l, h - 1)
        && Stored(H, s, r, h - 1)
  }

  /** The canonic encoding of a node hash. */
  function Canonic(s: Preimages, nodeHash: int): Triplet {
    if nodeHash in s && s[nodeHash].EdgeFact?
    then Triplet(s[nodeHash].length, s[nodeHash].path, s[nodeHash].bottom)
    else Triplet(0, 0, nodeHash)
  }

  /** The children of a node; None where the preimage lookup or its unpacking fails. */
  function GetChildren(s: Preimages, node: Triplet): Option<(Triplet, Triplet)> {
    if node.length == 0 then
      if node.bottom == 0 then Some((Canonic(s, 0), Canonic(s, 0)))
      else if node.bottom in s && s[node.bottom].BinaryFact? then
        Some((Canonic(s, s[node.bottom].left), Canonic(s, s[node.bottom].right)))
      else None
    else
      var half := Pow2(node.length - 1);
      if node.path / half == 0 then
        Some((Triplet(node.length - 1, node.path, node.bottom), EMPTY))
      else if node.path >= half then
        Some((EMPTY, Triplet(node.length - 1, node.path - half, node.bottom)))
      else None
  }

  /** A leaf value that `Canonic` would take for an edge. */
  ghost predicate LeafReadsAsEdge(s: Preimages, x: int) {
    x in s && s[x].EdgeFact?
  }

  /** A non-edge node above the leaves is not recorded as an edge. */
  lemma NotAnEdgeKey(H: Hash, s: Preimages, leaves: seq<int>, h: nat, n: nat)
    requires CollisionFree(H, n) && 0 < h <= n && WellKeyed(H, s, n)
    requires |leaves| == Pow2(h) && Encode(H, leaves, h).length == 0
    ensures !LeafReadsAsEdge(s, Root(H, leaves, h))
  {
    var k := Root(H, leaves, h);
    if k in s {
      match s[k]
      case BinaryFact(_, _) =>
      case EdgeFact(b, p, len) => EdgeIsNotBottom(H, Triplet(len, p, b), leaves, h, n);
    }
  }

  /** `Canonic` recovers the node of a subtree from its hash: always above the leaves, and at a
      leaf exactly when the leaf's value is not the hash of a recorded edge. */
  lemma CanonicRecovers(H: Hash, s: Preimages, leaves: seq<int>, h: nat, n: nat)
    requires CollisionFree(H, n) && h <= n && WellKeyed(H, s, n)
    requires |leaves| == Pow2(h)
    requires Stored(H, s, leaves, h)
    ensures Canonic(s, Root(H, leaves, h)) == Encode(H, leaves, h) <==> !(h == 0 && LeafReadsAsEdge(s, leaves[0]))
  {
    EncodeShape(H, leaves, h, n);
    var e := Encode(H, leaves, h);
    var k := Root(H, leaves, h);
    if e.length > 0 {
      assert HashFact(H, EdgeFact(e.bottom, e.path, e.length)) == k;
    } else if k in s && s[k].EdgeFact? {
      if h > 0 { NotAnEdgeKey(H, s, leaves, h, n); }
    }
  }

  /** `GetChildren` inverts one layer of the construction, at every height; on the layer of
      binary nodes over leaves it does so exactly when neither leaf reads as an edge. */
  lemma GetChildrenInvertsJoin(H: Hash, s: Preimages, leaves: seq<int>, h: nat, n: nat)
    requires CollisionFree(H, n) && 0 < h <= n && WellKeyed(H, s, n)
    requires |leaves| == Pow2(h)
    requires StoredBelow(H, s, leaves, h)
    ensures
      GetChildren(s, Encode(H, leaves, h))
        == Some((Encode(H, LeftHalf(leaves, h), h - 1), Encode(H, RightHalf(leaves, h), h - 1)))
      <==>
      !(h == 1 && leaves[0] != 0 && leaves[1] != 0
        && (LeafReadsAsEdge(s, leaves[0]) || LeafReadsAsEdge(s, leaves[1])))
  {
    var l, r := LeftHalf(leaves, h), RightHalf(leaves, h);
    NodeCanonical(H, l, h - 1, n);
    NodeCanonical(H, r, h - 1, n);
    var el, er := Encode(H, l, h - 1), Encode(H, r, h - 1);
    assert h == 1 ==> l[0] == leaves[0] && r[0] == leaves[1];
    if el != EMPTY && er != EMPTY {
      BinaryBottom(H, el, er, n);
      CanonicRecovers(H, s, l, h - 1, n);
      CanonicRecovers(H, s, r, h - 1, n);
      BinaryChildren(H, s, el, er);
    } else {
      EmptyIsNoKey(H, s, n);
      EdgeChildren(H, s, el, er);
    }
  }

  lemma BinaryChildren(H: Hash, s: Preimages, l: Triplet, r: Triplet)
    requires l != EMPTY && r != EMPTY && Join(H, l, r).bottom != 0
    requires Holds(H, s, BinaryFact(HashNode(H, l), HashNode(H, r)))
    ensures GetChildren(s, Join(H, l, r)) == Some((Canonic(s, HashNode(H, l)), Canonic(s, HashNode(H, r))))
  {}

  lemma EdgeChildren(H: Hash, s: Preimages, l: Triplet, r: Triplet)
    requires Canonical(H, l) && Canonical(H, r) && (l == EMPTY || r == EMPTY) && 0 !in s
    ensures GetChildren(s, Join(H, l, r)) == Some((l, r))
  {
    var e := Join(H, l, r);
    if l == EMPTY && r != EMPTY { DivUnique(e.path, Pow2(r.length), 1, r.path); }
    if r == EMPTY && l != EMPTY { DivUnique(e.path, Pow2(l.length), 0, l.path); }
  }

  lemma EmptyIsNoKey(H: Hash, s: Preimages, n: nat)
    requires CollisionFree(H, n) && WellKeyed(H, s, n)
    ensures 0 !in s
  {
    if 0 in s { NoCollision(H, n, s[0], s[0]); }
  }

  lemma BinaryBottom(H: Hash, l: Triplet, r: Triplet, n: nat)
    requires CollisionFree(H, n) && Canonical(H, l) && Canonical(H, r) && l != EMPTY && r != EMPTY
    ensures Join(H, l, r).bottom != 0
  {
    var f := BinaryFact(HashNode(H, l), HashNode(H, r));
    NoCollision(H, n, f, f);
  }

  /** `t` has everything `s` has. */
  ghost predicate Extends(s: Preimages, t: Preimages) {
    forall k :: k in s ==> k in t && t[k] == s[k]
  }

  /** Under a collision-free hash two well-keyed maps never disagree. */
  lemma UnionExtends(H: Hash, s: Preimages, t: Preimages, n: nat)
    requires CollisionFree(H, n) && WellKeyed(H, s, n) && WellKeyed(H, t, n)
    ensures Extends(s, s + t) && Extends(t, s + t) && WellKeyed(H, s + t, n)
  {
    forall k | k in s ensures k in s + t && (s + t)[k] == s[k] {
      if k in t { NoCollision(H, n, s[k], t[k]); }
    }
  }

  lemma {:induction false} StoredExtends(H: Hash, s: Preimages, t: Preimages, leaves: seq<int>, h: nat)
    requires |leaves| == Pow2(h) && Extends(s, t)
    ensures StoredBelow(H, s, leaves, h) ==> StoredBelow(H, t, leaves, h)
    ensures Stored(H, s, leaves, h) ==> Stored(H, t, leaves, h)
    decreases h
  {
    if h > 0 {
      StoredExtends(H, s, t, LeftHalf(leaves, h), h - 1);
      StoredExtends(H, s, t, RightHalf(leaves, h), h - 1);
    }
  }

  /** Halves of a joined array. */
  lemma HalvesOfSum(a: seq<int>, b: seq<int>, h: nat)
    requires h > 0 && |a| == |b| == Pow2(h - 1)
    ensures |a + b| == Pow2(h) && LeftHalf(a + b, h) == a && RightHalf(a + b, h) == b
  {}

  lemma {:induction false} EmptyStored(H: Hash, s: Preimages, leaves: seq<int>, h: nat, n: nat)
    requires CollisionFree(H, n) && h <= n && |leaves| == Pow2(h) && Encode(H, leaves, h) == EMPTY
    ensures Stored(H, s, leaves, h)
    decreases h
  {
    if h > 0 {
      EncodeTells(H, leaves, h, n);
      AllZeroHalves(leaves, h);
      EncodeTells(H, LeftHalf(leaves, h), h - 1, n);
      EncodeTells(H, RightHalf(leaves, h), h - 1, n);
      EmptyStored(H, s, RightHalf(leaves, h), h - 1, n);
    }
  }

  /** What `StoredBelow` says of the two halves. */
  lemma StoredHalves(H: Hash, s: Preimages, leaves: seq<int>, h: nat, n: nat)
    requires CollisionFree(H, n) && 0 < h <= n && |leaves| == Pow2(h) && StoredBelow(H, s, leaves, h)
    ensures var l, r := LeftHalf(leaves, h), RightHalf(leaves, h);
      var el, er := Encode(H, l, h - 1), Encode(H, r, h - 1);
      && StoredBelow(H, s, l, h - 1) && StoredBelow(H, s, r, h - 1)
      && (el != EMPTY && er != EMPTY ==>
            Stored(H, s, l, h - 1) && Stored(H, s, r, h - 1) && Holds(H, s, BinaryFact(HashNode(H, el), HashNode(H, er))))
  {
    var l, r := LeftHalf(leaves, h), RightHalf(leaves, h);
    if Encode(H, l, h - 1) == EMPTY { EmptyStored(H, s, l, h - 1, n); }
    if Encode(H, r, h - 1) == EMPTY { EmptyStored(H, s, r, h - 1, n); }
  }

  // ---------------------------------------------------------------------------
  // The facts of a tree
  // ---------------------------------------------------------------------------

  /** The facts of the nodes of a tree, its root edge (if any) included. */
  ghost function TreeFacts(H: Hash, leaves: seq<int>, h: nat): set<NodeFact>
    requires |leaves| == Pow2(h)
    decreases h, 1
  {
    var e := Encode(H, leaves, h);
    (if e.length > 0 then {EdgeFact(e.bottom, e.path, e.length)} else {}) + FactsBelow(H, leaves, h)
  }

  ghost function FactsBelow(H: Hash, leaves: seq<int>, h: nat): set<NodeFact>
    requires |leaves| == Pow2(h)
    decreases h, 0
  {
    if h == 0 then {}
    else
      var l, r := LeftHalf(leaves, h), RightHalf(leaves, h);
      var el, er := Encode(H, l, h - 1), Encode(H, r, h - 1);
      if el == EMPTY then FactsBelow(H, r, h - 1)
      else if er == EMPTY then FactsBelow(H, l, h - 1)
      else {BinaryFact(HashNode(H, el), HashNode(H, er))} + TreeFacts(H, l, h - 1) + TreeFacts(H, r, h - 1)
  }

  ghost predicate AllFrom(s: Preimages, F: set<NodeFact>) {
    forall k :: k in s ==> s[k] in F
  }

  ghost predicate HoldsAll(H: Hash, s: Preimages, F: set<NodeFact>) {
    forall f :: f in F ==> Holds(H, s, f)
  }

  /** `Stored` means that all facts of the tree are stored. */
  lemma {:induction false} StoredIs(H: Hash, s: Preimages, leaves: seq<int>, h: nat)
    requires |leaves| == Pow2(h)
    ensures StoredBelow(H, s, leaves, h) <==> HoldsAll(H, s, FactsBelow(H, leaves, h))
    ensures Stored(H, s, leaves, h) <==> HoldsAll(H, s, TreeFacts(H, leaves, h))
    decreases h
  {
    if h > 0 {
      var l, r := LeftHalf(leaves, h), RightHalf(leaves, h);
      StoredIs(H, s, l, h - 1);
      StoredIs(H, s, r, h - 1);
    }
    StoredWithEdge(H, s, leaves, h);
  }

  lemma StoredWithEdge(H: Hash, s: Preimages, leaves: seq<int>, h: nat)
    requires |leaves| == Pow2(h) && (StoredBelow(H, s, leaves, h) <==> HoldsAll(H, s, FactsBelow(H, leaves, h)))
    ensures Stored(H, s, leaves, h) <==> HoldsAll(H, s, TreeFacts(H, leaves, h))
  {
    var e := Encode(H, leaves, h);
    var f := EdgeFact(e.bottom, e.path, e.length);
    assert e.length > 0 ==> f in TreeFacts(H, leaves, h);
    assert forall g :: g in FactsBelow(H, leaves, h) ==> g in TreeFacts(H, leaves, h);
  }

  lemma {:induction false} NoFactsBelow(H: Hash, leaves: seq<int>, h: nat, n: nat)
    requires CollisionFree(H, n) && h <= n && |leaves| == Pow2(h) && Encode(H, leaves, h) == EMPTY
    ensures FactsBelow(H, leaves, h) == {}
    decreases h
  {
    if h > 0 {
      EncodeTells(H, leaves, h, n);
      AllZeroHalves(leaves, h);
      EncodeTells(H, LeftHalf(leaves, h), h - 1, n);
      EncodeTells(H, RightHalf(leaves, h), h - 1, n);
      NoFactsBelow(H, RightHalf(leaves, h), h - 1, n);
    }
  }

  /** The facts below each half are facts of the whole. */
  lemma HalfFacts(H: Hash, leaves: seq<int>, h: nat, n: nat)
    requires CollisionFree(H, n) && 0 < h <= n && |leaves| == Pow2(h)
    ensures FactsBelow(H, LeftHalf(leaves, h), h - 1) <= FactsBelow(H, leaves, h)
    ensures FactsBelow(H, RightHalf(leaves, h), h - 1) <= FactsBelow(H, leaves, h)
  {
    var l, r := LeftHalf(leaves, h), RightHalf(leaves, h);
    if Encode(H, l, h - 1) == EMPTY {
      NoFactsBelow(H, l, h - 1, n);
    } else if Encode(H, r, h - 1) == EMPTY {
      NoFactsBelow(H, r, h - 1, n);
    }
  }

  /** `t` has the facts of `s`, and besides them facts of `F` only. */
  ghost predicate AddsOnly(s: Preimages, t: Preimages, F: set<NodeFact>) {
    Extends(s, t) && forall k :: k in t ==> k in s || t[k] in F
  }

  lemma UnionAddsOnly(s: Preimages, t: Preimages, F: set<NodeFact>)
    requires Extends(s, s + t) && AllFrom(t, F)
    ensures AddsOnly(s, s + t, F)
  {}

  /** What is stored after adding the facts of a tree does not depend on how they were found. */
  lemma SameStore(H: Hash, n: nat, s: Preimages, t: Preimages, u: Preimages, leaves: seq<int>, h: nat)
    requires CollisionFree(H, n) && |leaves| == Pow2(h) && WellKeyed(H, t, n) && WellKeyed(H, u, n)
    requires Stored(H, t, leaves, h) && AddsOnly(s, t, TreeFacts(H, leaves, h))
    requires Stored(H, u, leaves, h) && AddsOnly(s, u, TreeFacts(H, leaves, h))
    ensures t == u
  {
    StoredIs(H, t, leaves, h);
    StoredIs(H, u, leaves, h);
    Contained(H, n, s, t, u, TreeFacts(H, leaves, h));
    Contained(H, n, s, u, t, TreeFacts(H, leaves, h));
    ExtendsBoth(t, u);
  }

  lemma ExtendsBoth(t: Preimages, u: Preimages)
    requires Extends(t, u) && Extends(u, t)
    ensures t == u
  {
    forall k ensures k in t.Keys <==> k in u.Keys {
      if k in t.Keys { assert k in t; }
      if k in u.Keys { assert k in u; }
    }
    assert forall k :: k in t.Keys ==> t[k] == u[k];
  }

  lemma Contained(H: Hash, n: nat, s: Preimages, t: Preimages, u: Preimages, F: set<NodeFact>)
    requires CollisionFree(H, n) && WellKeyed(H, t, n) && AddsOnly(s, t, F) && Extends(s, u) && HoldsAll(H, u, F)
    ensures Extends(t, u)
  {
    forall k | k in t ensures k in u && u[k] == t[k] {
      if k !in s { assert Holds(H, u, t[k]); }
    }
  }
}
