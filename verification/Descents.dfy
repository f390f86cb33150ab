/**
 The search for descents over several trees at once
 (src/starkware/cairo/common/patricia_utils.py, get_descents).

 A descent is a path on which every tree is empty beside the path. Nodes are addressed by
 their paths from the root.
 */
module Descents {
  import opened Common

  /** The part of a tree that the search looks at: which nodes are there. */
  datatype Shape = Hole | Tip | Pair(left: Shape, right: Shape)

  /** A tree of height `h` that can be opened down to its leaves. */
  predicate Openable(s: Shape, h: nat) {
    match s
    case Hole => true
    case Tip => h == 0
    case Pair(l, r) => h > 0 && Openable(l, h - 1) && Openable(r, h - 1)
  }

  /** As built by `build_update_tree`: moreover no pair of two empty trees. */
  predicate WellShaped(s: Shape, h: nat) {
    match s
    case Hole => true
    case Tip => h == 0
    case Pair(l, r) => h > 0 && !(l.Hole? && r.Hole?) && WellShaped(l, h - 1) && WellShaped(r, h - 1)
  }

  function Child(s: Shape, right: bool): Shape {
    if !s.Pair? then Hole else if right then s.right else s.left
  }

  /** The children of all trees on one side. */
  function Step(ts: seq<Shape>, right: bool): (r: seq<Shape>)
    ensures |r| == |ts|
    ensures forall i :: 0 <= i < |ts| ==> r[i] == Child(ts[i], right)
  {
    seq(|ts|, i requires 0 <= i < |ts| => Child(ts[i], right))
  }

  predicate AllHole(ts: seq<Shape>) { forall i :: 0 <= i < |ts| ==> ts[i].Hole? }

  /** The nodes of all trees at the end of a path. */
  function At(ts: seq<Shape>, bits: seq<bool>): (r: seq<Shape>)
    ensures |r| == |ts|
    decreases |bits|
  {
    if bits == [] then ts else At(Step(ts, bits[0]), bits[1..])
  }

  lemma {:induction false} AtConcat(ts: seq<Shape>, a: seq<bool>, b: seq<bool>)
    ensures At(ts, a + b) == At(At(ts, a), b)
    decreases |a|
  {
    if a == [] {
      assert a + b == b;
    } else {
      assert (a + b)[1..] == a[1..] + b;
      AtConcat(Step(ts, a[0]), a[1..], b);
    }
  }

  /** What the search is given: the first tree is an update tree, the others can be opened. */
  predicate Trees(ts: seq<Shape>, h: nat) {
    && |ts| > 0 && WellShaped(ts[0], h)
    && forall i :: 0 <= i < |ts| ==> Openable(ts[i], h)
  }

  lemma StepTrees(ts: seq<Shape>, h: nat, right: bool)
    requires Trees(ts, h) && h > 0
    ensures Trees(Step(ts, right), h - 1)
  {}

  lemma {:induction false} AtTrees(ts: seq<Shape>, h: nat, bits: seq<bool>)
    requires Trees(ts, h) && |bits| <= h
    ensures Trees(At(ts, bits), h - |bits|)
    decreases |bits|
  {
    if bits != [] {
      StepTrees(ts, h, bits[0]);
      AtTrees(Step(ts, bits[0]), h - 1, bits[1..]);
    }
  }

  // ---------------------------------------------------------------------------
  // Maximal descents, stated on the trees alone
  // ---------------------------------------------------------------------------

  /** Some tree continues on the left and some on the right. */
  predicate Branching(ts: seq<Shape>) {
    !AllHole(Step(ts, false)) && !AllHole(Step(ts, true))
  }

  /** Beside the path every tree is empty, at every step. */
  ghost predicate Lonely(ts: seq<Shape>, sub: seq<bool>) {
    forall k :: 0 <= k < |sub| ==> AllHole(Step(At(ts, sub[..k]), !sub[k]))
  }

  /** The path cannot be continued: it ends at a leaf or where the trees branch. */
  ghost predicate Maximal(ts: seq<Shape>, h: nat, sub: seq<bool>) {
    |sub| <= h && Lonely(ts, sub) && (|sub| == h || Branching(At(ts, sub)))
  }

  /** A descent can start here: the first tree is not empty, and the path from above does not
      continue an earlier descent. */
  ghost predicate Start(ts: seq<Shape>, h: nat, bits: seq<bool>) {
    && |bits| <= h && |ts| > 0 && !At(ts, bits)[0].Hole?
    && (bits != [] ==> Branching(At(ts, bits[..|bits| - 1])))
  }

  // ---------------------------------------------------------------------------
  // The search
  // ---------------------------------------------------------------------------

  /** The path found by the loop. */
  function Walk(h: nat, ts: seq<Shape>): (w: seq<bool>)
    ensures |w| <= h
  {
    if h == 0 then []
    else if AllHole(Step(ts, false)) then [true] + Walk(h - 1, Step(ts, true))
    else if AllHole(Step(ts, true)) then [false] + Walk(h - 1, Step(ts, false))
    else []
  }

  type DescentMap = map<(nat, nat), (nat, nat)>

  /** The descent that starts at the node itself; a length up to 1 is not a descent. */
  function Own(h: nat, path: nat, w: seq<bool>): DescentMap {
    if |w| > 1 then map[(h, path) := (|w|, Num(w))] else map[]
  }

  /** The descents below the node at height `h` and number `path`. */
  function Search(h: nat, path: nat, ts: seq<Shape>): DescentMap
    requires |ts| > 0
    decreases h, 1
  {
    if ts[0].Hole? then map[]
    else Own(h, path, Walk(h, ts)) + SearchSide(h, path, ts, false) + SearchSide(h, path, ts, true)
  }

  /** Those below one child of the end of the first descent. */
  function SearchSide(h: nat, path: nat, ts: seq<Shape>, right: bool): DescentMap
    requires |ts| > 0
    decreases h, 0
  {
    var w := Walk(h, ts);
    if |w| == h then map[]
    else Search(h - |w| - 1, 2 * PathNum(path, w) + (if right then 1 else 0), Step(At(ts, w), right))
  }

  lemma PathMod(path: nat, w: seq<bool>)
    ensures PathNum(path, w) % Pow2(|w|) == Num(w)
  {
    PathNumIs(path, w);
    DivUnique(PathNum(path, w), Pow2(|w|), path, Num(w));
  }

  lemma OneStep(nodes: seq<Shape>, path: nat, w: seq<bool>, h: nat, ns: seq<Shape>, right: bool)
    requires h > 0 && Trees(ns, h) && ns == At(nodes, w)
    ensures Trees(Step(ns, right), h - 1)
    ensures At(nodes, w + [right]) == Step(ns, right)
    ensures PathNum(path, w + [right]) == 2 * PathNum(path, w) + (if right then 1 else 0)
    ensures w + ([right] + Walk(h - 1, Step(ns, right))) == (w + [right]) + Walk(h - 1, Step(ns, right))
  {
    StepTrees(ns, h, right);
    AtConcat(nodes, w, [right]);
    PathNumConcat(path, w, [right]);
    assert [right][1..] == [];
  }

  /** The loop of `get_descents`: all trees are followed while they share a descent. */
  method FollowDescent(height: nat, path: nat, nodes: seq<Shape>)
    returns (h: nat, p: nat, lefts: seq<Shape>, rights: seq<Shape>)
    requires Trees(nodes, height)
    ensures var w := Walk(height, nodes);
      && h == height - |w| && p == PathNum(path, w)
      && (h > 0 ==> lefts == Step(At(nodes, w), false) && rights == Step(At(nodes, w), true)
                    && Trees(lefts, h - 1) && Trees(rights, h - 1))
  {
    h, p, lefts, rights := height, path, [], [];
    var ns := nodes;
    ghost var w: seq<bool> := [];
    while h > 0
      invariant h + |w| == height && Trees(ns, h)
      invariant ns == At(nodes, w) && p == PathNum(path, w)
      invariant Walk(height, nodes) == w + Walk(h, ns)
    {
      lefts, rights := Step(ns, false), Step(ns, true);
      if AllHole(lefts) {
        OneStep(nodes, path, w, h, ns, true);
        ns, p, w := rights, 2 * p + 1, w + [true];
      } else if AllHole(rights) {
        OneStep(nodes, path, w, h, ns, false);
        ns, p, w := lefts, 2 * p, w + [false];
      } else {
        StepTrees(ns, h, false);
        StepTrees(ns, h, true);
        assert w + [] == w;
        return;
      }
      h := h - 1;
    }
    assert w + [] == w;
  }

  method OwnDescent(height: nat, path: nat, h: nat, p: nat, ghost w: seq<bool>) returns (own: DescentMap)
    requires h + |w| == height && p == PathNum(path, w)
    ensures own == Own(height, path, w)
  {
    var length := height - h;
    own := map[];
    if length > 1 {
      PathMod(path, w);
      own := own[(height, path) := (length, p % Pow2(length))];
    }
  }

  /** `get_descents`: the longest common descent, then the two subtrees at its end. */
  method GetDescents(height: nat, path: nat, nodes: seq<Shape>) returns (res: DescentMap)
    requires Trees(nodes, height)
    ensures res == Search(height, path, nodes)
    decreases height, 0
  {
    if nodes[0].Hole? { return map[]; }
    var h, p, lefts, rights := FollowDescent(height, path, nodes);
    var own := OwnDescent(height, path, h, p, Walk(height, nodes));
    if h == 0 {
      LeafSearch(height, path, nodes);
      res := own;
    } else {
      ghost var l, r := SearchSide(height, path, nodes, false), SearchSide(height, path, nodes, true);
      assert l == Search(h - 1, 2 * p, lefts);
      assert r == Search(h - 1, 2 * p + 1, rights);
      res := AddBoth(h - 1, p, lefts, rights, own);
      assert res == own + l + r;
    }
  }

  lemma LeafSearch(h: nat, path: nat, ts: seq<Shape>)
    requires |ts| > 0 && !ts[0].Hole? && |Walk(h, ts)| == h
    ensures Search(h, path, ts) == Own(h, path, Walk(h, ts))
  {
    var own := Own(h, path, Walk(h, ts));
    assert own + map[] + map[] == own;
  }

  method AddBoth(h: nat, p: nat, lefts: seq<Shape>, rights: seq<Shape>, own: DescentMap) returns (res: DescentMap)
    requires Trees(lefts, h) && Trees(rights, h)
    ensures res == own + Search(h, 2 * p, lefts) + Search(h, 2 * p + 1, rights)
    decreases h, 1
  {
    var l := GetDescents(h, p * 2, lefts);
    var r := GetDescents(h, p * 2 + 1, rights);
    res := own + l + r;
  }

  // ---------------------------------------------------------------------------
  // The search finds exactly the maximal descents
  // ---------------------------------------------------------------------------

  lemma LonelyCons(ts: seq<Shape>, b: bool, sub: seq<bool>)
    ensures Lonely(ts, [b] + sub) <==> AllHole(Step(ts, !b)) && Lonely(Step(ts, b), sub)
  {
    var whole := [b] + sub;
    assert whole[..0] == [] && whole[0] == b;
    forall k | 0 <= k < |sub|
      ensures At(ts, whole[..k + 1]) == At(Step(ts, b), sub[..k]) && whole[k + 1] == sub[k]
    {
      assert whole[..k + 1] == [b] + sub[..k];
      assert ([b] + sub[..k])[1..] == sub[..k];
    }
    if Lonely(ts, whole) {
      assert AllHole(Step(At(ts, whole[..0]), !whole[0]));
      forall k | 0 <= k < |sub| ensures AllHole(Step(At(Step(ts, b), sub[..k]), !sub[k])) {
        assert AllHole(Step(At(ts, whole[..k + 1]), !whole[k + 1]));
      }
    }
    if AllHole(Step(ts, !b)) && Lonely(Step(ts, b), sub) {
      forall k | 0 <= k < |whole| ensures AllHole(Step(At(ts, whole[..k]), !whole[k])) {
        if k > 0 { assert AllHole(Step(At(Step(ts, b), sub[..k - 1]), !sub[k - 1])); }
      }
    }
  }

  /** The first tree goes on where the others are empty. */
  lemma FirstGoesOn(ts: seq<Shape>, h: nat, b: bool)
    requires Trees(ts, h) && h > 0 && !ts[0].Hole? && AllHole(Step(ts, !b))
    ensures !Step(ts, b)[0].Hole? && !AllHole(Step(ts, b))
  {
    assert Step(ts, !b)[0].Hole?;
  }

  lemma {:induction false} WalkMaximal(h: nat, ts: seq<Shape>)
    requires Trees(ts, h) && !ts[0].Hole?
    ensures Maximal(ts, h, Walk(h, ts)) && !At(ts, Walk(h, ts))[0].Hole?
    decreases h
  {
    var w := Walk(h, ts);
    if w != [] {
      var b := w[0];
      assert w == [b] + w[1..] && w[1..] == Walk(h - 1, Step(ts, b));
      FirstGoesOn(ts, h, b);
      StepTrees(ts, h, b);
      WalkMaximal(h - 1, Step(ts, b));
      LonelyCons(ts, b, w[1..]);
    }
  }

  lemma {:induction false} WalkUnique(h: nat, ts: seq<Shape>, sub: seq<bool>)
    requires Trees(ts, h) && !ts[0].Hole? && Maximal(ts, h, sub)
    ensures sub == Walk(h, ts)
    decreases h
  {
    if sub != [] {
      var b := sub[0];
      assert sub == [b] + sub[1..];
      LonelyCons(ts, b, sub[1..]);
      FirstGoesOn(ts, h, b);
      StepTrees(ts, h, b);
      WalkUnique(h - 1, Step(ts, b), sub[1..]);
    }
  }

  lemma {:induction false} AtOfHole(ts: seq<Shape>, bits: seq<bool>)
    requires |ts| > 0 && ts[0].Hole?
    ensures At(ts, bits)[0].Hole?
    decreases |bits|
  {
    if bits != [] { AtOfHole(Step(ts, bits[0]), bits[1..]); }
  }

  /** Every other start lies below the end of the first descent. */
  lemma {:induction false} StartBelowWalk(h: nat, ts: seq<Shape>, bits: seq<bool>)
    requires Trees(ts, h) && bits != [] && Start(ts, h, bits)
    ensures |Walk(h, ts)| < |bits| && bits[..|Walk(h, ts)|] == Walk(h, ts)
    decreases h
  {
    var w := Walk(h, ts);
    if w != [] {
      var b := w[0];
      assert w == [b] + w[1..] && w[1..] == Walk(h - 1, Step(ts, b));
      assert AllHole(Step(ts, !b));
      if bits[0] != b { AtOfHole(Step(ts, bits[0]), bits[1..]); }
      StepTrees(ts, h, b);
      assert bits[..|bits| - 1][1..] == bits[1..][..|bits| - 2];
      StartBelowWalk(h - 1, Step(ts, b), bits[1..]);
      assert bits == [b] + bits[1..];
    }
  }

  /** The keys found lie below the starting node, and apart from the node itself, below the end
      of its descent. */
  lemma {:induction false} SearchKeys(h: nat, p: nat, ts: seq<Shape>, k: (nat, nat))
    requires |ts| > 0 && k in Search(h, p, ts)
    ensures k.0 <= h && Above(k.1, h - k.0) == p
    ensures k == (h, p) || k.0 < h - |Walk(h, ts)|
    ensures k == (h, p) ==> |Walk(h, ts)| > 1
    decreases h, 1
  {
    if k in SearchSide(h, p, ts, false) {
      SideKeys(h, p, ts, k, false);
    } else if k in SearchSide(h, p, ts, true) {
      SideKeys(h, p, ts, k, true);
    }
  }

  lemma {:induction false} SideKeys(h: nat, p: nat, ts: seq<Shape>, k: (nat, nat), right: bool)
    requires |ts| > 0 && k in SearchSide(h, p, ts, right)
    ensures k.0 < h - |Walk(h, ts)| && Above(k.1, h - k.0) == p
    ensures Above(k.1, h - |Walk(h, ts)| - 1 - k.0) == 2 * PathNum(p, Walk(h, ts)) + (if right then 1 else 0)
    decreases h, 0
  {
    var w := Walk(h, ts);
    var h', c := h - |w| - 1, 2 * PathNum(p, w) + (if right then 1 else 0);
    SearchKeys(h', c, Step(At(ts, w), right), k);
    AboveChild(p, w, k.1, h' - k.0, c);
  }

  lemma {:induction false} AboveAdd(x: nat, a: nat, b: nat)
    ensures Above(x, a + b) == Above(Above(x, a), b)
  {
    if b > 0 { AboveAdd(x, a, b - 1); }
  }

  lemma AboveChild(p: nat, w: seq<bool>, x: nat, d: nat, c: nat)
    requires Above(x, d) == c && c / 2 == PathNum(p, w)
    ensures Above(x, d + 1 + |w|) == p
  {
    AboveAdd(x, d + 1, |w|);
    AbovePath(p, w);
  }

  /** The key and the value of a descent. */
  function Key(h: nat, p: nat, bits: seq<bool>): (nat, nat)
    requires |bits| <= h
  {
    (h - |bits|, PathNum(p, bits))
  }

  ghost predicate IsDescent(ts: seq<Shape>, h: nat, bits: seq<bool>, sub: seq<bool>) {
    Start(ts, h, bits) && |sub| > 1 && Maximal(At(ts, bits), h - |bits|, sub)
  }

  /** Starts below the end of the first descent are starts of the searches below it. */
  lemma StartShift(h: nat, ts: seq<Shape>, w: seq<bool>, b: bool, rest: seq<bool>)
    requires |ts| > 0 && |w| < h && Branching(At(ts, w))
    ensures At(ts, w + [b] + rest) == At(Step(At(ts, w), b), rest)
    ensures Start(ts, h, w + [b] + rest) <==> Start(Step(At(ts, w), b), h - |w| - 1, rest)
  {
    var bits := w + [b] + rest;
    var side := Step(At(ts, w), b);
    ShiftAt(ts, w, b, rest);
    if rest == [] {
      assert bits[..|bits| - 1] == w;
    } else {
      assert bits[..|bits| - 1] == w + [b] + rest[..|rest| - 1];
      ShiftAt(ts, w, b, rest[..|rest| - 1]);
    }
  }

  lemma ShiftAt(ts: seq<Shape>, w: seq<bool>, b: bool, rest: seq<bool>)
    ensures At(ts, w + [b] + rest) == At(Step(At(ts, w), b), rest)
  {
    assert w + [b] + rest == w + ([b] + rest);
    AtConcat(ts, w, [b] + rest);
    assert ([b] + rest)[1..] == rest;
  }

  lemma ShiftKey(h: nat, p: nat, w: seq<bool>, b: bool, rest: seq<bool>)
    requires |w| + 1 + |rest| <= h
    ensures Key(h, p, w + [b] + rest) == Key(h - |w| - 1, 2 * PathNum(p, w) + (if b then 1 else 0), rest)
  {
    assert w + [b] + rest == w + ([b] + rest);
    PathNumConcat(p, w, [b] + rest);
    assert ([b] + rest)[1..] == rest;
  }

  /** Everything found is a maximal descent. */
  lemma {:induction false} SearchSound(h: nat, p: nat, ts: seq<Shape>, k: (nat, nat)) returns (bits: seq<bool>, sub: seq<bool>)
    requires Trees(ts, h) && k in Search(h, p, ts)
    ensures IsDescent(ts, h, bits, sub)
    ensures k == Key(h, p, bits) && Search(h, p, ts)[k] == (|sub|, Num(sub))
    decreases h, 1
  {
    if k in SearchSide(h, p, ts, true) {
      bits, sub := SideSound(h, p, ts, k, true);
    } else if k in SearchSide(h, p, ts, false) {
      bits, sub := SideSound(h, p, ts, k, false);
    } else {
      WalkMaximal(h, ts);
      bits, sub := [], Walk(h, ts);
    }
  }

  lemma {:induction false} SideSound(h: nat, p: nat, ts: seq<Shape>, k: (nat, nat), right: bool) returns (bits: seq<bool>, sub: seq<bool>)
    requires Trees(ts, h) && !ts[0].Hole? && k in SearchSide(h, p, ts, right)
    ensures IsDescent(ts, h, bits, sub)
    ensures k == Key(h, p, bits) && SearchSide(h, p, ts, right)[k] == (|sub|, Num(sub))
    decreases h, 0
  {
    var w := Walk(h, ts);
    var h', c, side := h - |w| - 1, 2 * PathNum(p, w) + (if right then 1 else 0), Step(At(ts, w), right);
    SideTrees(h, ts, w, right);
    WalkMaximal(h, ts);
    var rest;
    rest, sub := SearchSound(h', c, side, k);
    bits := w + [right] + rest;
    DescentShift(h, ts, w, right, rest, sub);
    ShiftKey(h, p, w, right, rest);
  }

  /** Every maximal descent is found. */
  lemma SearchComplete(h: nat, p: nat, ts: seq<Shape>, bits: seq<bool>, sub: seq<bool>)
    requires Trees(ts, h) && IsDescent(ts, h, bits, sub)
    ensures Key(h, p, bits) in Search(h, p, ts) && Search(h, p, ts)[Key(h, p, bits)] == (|sub|, Num(sub))
  {
    AtTrees(ts, h, bits);
    WalkUnique(h - |bits|, At(ts, bits), sub);
    StartFound(h, p, ts, bits, sub, Key(h, p, bits));
  }

  ghost predicate Found(h: nat, p: nat, ts: seq<Shape>, k: (nat, nat), w: seq<bool>)
    requires |ts| > 0
  {
    k in Search(h, p, ts) && Search(h, p, ts)[k] == (|w|, Num(w))
  }

  lemma {:induction false} StartFound(h: nat, p: nat, ts: seq<Shape>, bits: seq<bool>, sub: seq<bool>, k: (nat, nat))
    requires Trees(ts, h) && Start(ts, h, bits) && k == Key(h, p, bits)
    requires sub == Walk(h - |bits|, At(ts, bits)) && |sub| > 1
    ensures Found(h, p, ts, k, sub)
    decreases h, 1
  {
    if bits == [] {
      OwnFound(h, p, ts);
    } else {
      var right := SideStartFound(h, p, ts, bits, sub, k);
      SideHas(h, p, ts, k, right, sub);
    }
  }

  lemma {:induction false} SideStartFound(h: nat, p: nat, ts: seq<Shape>, bits: seq<bool>, sub: seq<bool>, k: (nat, nat)) returns (right: bool)
    requires Trees(ts, h) && Start(ts, h, bits) && k == Key(h, p, bits) && bits != []
    requires sub == Walk(h - |bits|, At(ts, bits)) && |sub| > 1
    ensures !ts[0].Hole? && |Walk(h, ts)| < h
    ensures var w := Walk(h, ts);
      Found(h - |w| - 1, 2 * PathNum(p, w) + (if right then 1 else 0), Step(At(ts, w), right), k, sub)
    decreases h, 0
  {
    var rest, h', q, side;
    right, rest, h', q, side := SideStart(h, p, ts, bits, k);
    StartFound(h', q, side, rest, sub, k);
  }

  /** A start below the first descent, seen from the search that finds it. */
  lemma SideStart(h: nat, p: nat, ts: seq<Shape>, bits: seq<bool>, k: (nat, nat))
    returns (right: bool, rest: seq<bool>, h': nat, q: nat, side: seq<Shape>)
    requires Trees(ts, h) && bits != [] && Start(ts, h, bits) && k == Key(h, p, bits)
    ensures !ts[0].Hole? && |Walk(h, ts)| < h && h' == h - |Walk(h, ts)| - 1
    ensures q == 2 * PathNum(p, Walk(h, ts)) + (if right then 1 else 0) && side == Step(At(ts, Walk(h, ts)), right)
    ensures Trees(side, h') && Start(side, h', rest) && k == Key(h', q, rest)
    ensures h' - |rest| == h - |bits| && At(side, rest) == At(ts, bits)
  {
    right, rest := SplitStart(h, ts, bits);
    var w := Walk(h, ts);
    h', q, side := h - |w| - 1, 2 * PathNum(p, w) + (if right then 1 else 0), Step(At(ts, w), right);
    ShiftKey(h, p, w, right, rest);
  }

  lemma SideHas(h: nat, p: nat, ts: seq<Shape>, k: (nat, nat), right: bool, sub: seq<bool>)
    requires |ts| > 0 && !ts[0].Hole? && |Walk(h, ts)| < h
    requires var w := Walk(h, ts);
      Found(h - |w| - 1, 2 * PathNum(p, w) + (if right then 1 else 0), Step(At(ts, w), right), k, sub)
    ensures Found(h, p, ts, k, sub)
  {
    SideFound(h, p, ts, k, right);
  }

  lemma {:induction false} SplitStart(h: nat, ts: seq<Shape>, bits: seq<bool>) returns (right: bool, rest: seq<bool>)
    requires Trees(ts, h) && bits != [] && Start(ts, h, bits)
    ensures !ts[0].Hole? && |Walk(h, ts)| < h && bits == Walk(h, ts) + [right] + rest
    ensures var h', side := h - |Walk(h, ts)| - 1, Step(At(ts, Walk(h, ts)), right);
      Trees(side, h') && Start(side, h', rest) && At(side, rest) == At(ts, bits)
  {
    if ts[0].Hole? { AtOfHole(ts, bits); }
    StartBelowWalk(h, ts, bits);
    var w := Walk(h, ts);
    right, rest := bits[|w|], bits[|w| + 1..];
    assert bits == w + [right] + rest;
    assert Branching(At(ts, w)) by { WalkMaximal(h, ts); }
    StartShift(h, ts, w, right, rest);
    SideTrees(h, ts, w, right);
  }

  lemma SideTrees(h: nat, ts: seq<Shape>, w: seq<bool>, right: bool)
    requires Trees(ts, h) && |w| < h
    ensures Trees(Step(At(ts, w), right), h - |w| - 1)
  {
    AtTrees(ts, h, w);
    StepTrees(At(ts, w), h - |w|, right);
  }

  lemma DescentShift(h: nat, ts: seq<Shape>, w: seq<bool>, b: bool, rest: seq<bool>, sub: seq<bool>)
    requires |ts| > 0 && |w| < h && Branching(At(ts, w))
    ensures IsDescent(ts, h, w + [b] + rest, sub) <==> IsDescent(Step(At(ts, w), b), h - |w| - 1, rest, sub)
  {
    StartShift(h, ts, w, b, rest);
  }

  lemma OwnFound(h: nat, p: nat, ts: seq<Shape>)
    requires |ts| > 0 && !ts[0].Hole? && |Walk(h, ts)| > 1
    ensures (h, p) in Search(h, p, ts) && Search(h, p, ts)[(h, p)] == (|Walk(h, ts)|, Num(Walk(h, ts)))
  {
    if (h, p) in SearchSide(h, p, ts, false) { SideKeys(h, p, ts, (h, p), false); }
    if (h, p) in SearchSide(h, p, ts, true) { SideKeys(h, p, ts, (h, p), true); }
  }

  lemma SideFound(h: nat, p: nat, ts: seq<Shape>, k: (nat, nat), right: bool)
    requires |ts| > 0 && !ts[0].Hole? && k in SearchSide(h, p, ts, right)
    ensures k in Search(h, p, ts) && Search(h, p, ts)[k] == SearchSide(h, p, ts, right)[k]
  {
    SideKeys(h, p, ts, k, right);
    if k in SearchSide(h, p, ts, !right) { SideKeys(h, p, ts, k, !right); }
  }

  /** No descent starts strictly inside another, nor at its end. */
  lemma NoNesting(h: nat, ts: seq<Shape>, bits: seq<bool>, sub: seq<bool>, k: nat)
    requires IsDescent(ts, h, bits, sub) && 0 < k <= |sub|
    ensures !Start(ts, h, bits + sub[..k])
  {
    var inner := bits + sub[..k];
    assert inner[..|inner| - 1] == bits + sub[..k - 1];
    AtConcat(ts, bits, sub[..k - 1]);
    assert AllHole(Step(At(At(ts, bits), sub[..k - 1]), !sub[k - 1]));
  }

  lemma KeyInjective(h: nat, p: nat, a: seq<bool>, b: seq<bool>)
    requires |a| <= h && |b| <= h && Key(h, p, a) == Key(h, p, b)
    ensures a == b
  {
    PathNumIs(p, a);
    PathNumIs(p, b);
    NumInjective(a, b);
  }

  /** So the map has no entry strictly inside a descent, nor at its end. */
  lemma NoEntryInside(h: nat, p: nat, ts: seq<Shape>, bits: seq<bool>, sub: seq<bool>, k: nat)
    requires Trees(ts, h) && IsDescent(ts, h, bits, sub) && 0 < k <= |sub|
    ensures |bits + sub[..k]| <= h && Key(h, p, bits + sub[..k]) !in Search(h, p, ts)
  {
    NoNesting(h, ts, bits, sub, k);
    var key := Key(h, p, bits + sub[..k]);
    if key in Search(h, p, ts) {
      var other, w := SearchSound(h, p, ts, key);
      KeyInjective(h, p, bits + sub[..k], other);
    }
  }
}
