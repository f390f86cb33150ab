/**
 The untraversed siblings of an update, as paths, from the update tree alone
 (src/starkware/cairo/common/patricia_utils.py, compute_siblings_from_tree).
 */
module SiblingPaths {
  import opened Common
  import opened Descents

  /** The part of the tree at the end of a path. */
  function Node(t: Shape, bits: seq<bool>): Shape
    decreases |bits|
  {
    if bits == [] then t else Node(Child(t, bits[0]), bits[1..])
  }

  function Prefixed(b: bool, paths: seq<seq<bool>>): (r: seq<seq<bool>>)
    ensures |r| == |paths|
  {
    if paths == [] then [] else [[b] + paths[0]] + Prefixed(b, paths[1..])
  }

  lemma {:induction false} PrefixedAt(b: bool, paths: seq<seq<bool>>, i: nat)
    requires i < |paths|
    ensures Prefixed(b, paths)[i] == [b] + paths[i]
  {
    if i > 0 { PrefixedAt(b, paths[1..], i - 1); }
  }

  /** The empty sides of the nodes on the way to the updates, in the order of the traversal. */
  function Paths(t: Shape): seq<seq<bool>> {
    if !t.Pair? then []
    else if t.left.Hole? then [[false]] + Prefixed(true, Paths(t.right))
    else if t.right.Hole? then [[true]] + Prefixed(false, Paths(t.left))
    else Prefixed(false, Paths(t.left)) + Prefixed(true, Paths(t.right))
  }

  /** Nothing is updated below the path, but something is below its parent. */
  ghost predicate Untraversed(t: Shape, bits: seq<bool>) {
    bits != [] && Node(t, bits[..|bits| - 1]).Pair? && Node(t, bits).Hole?
  }

  lemma {:induction false} BelowHole(t: Shape, bits: seq<bool>)
    requires t.Hole?
    ensures Node(t, bits).Hole?
    decreases |bits|
  {
    if bits != [] { BelowHole(Child(t, bits[0]), bits[1..]); }
  }

  lemma UntraversedOne(t: Shape, b: bool)
    ensures Untraversed(t, [b]) <==> t.Pair? && Child(t, b).Hole?
  {
    assert [b][..0] == [] && [b][1..] == [];
    assert Node(t, [b]) == Node(Child(t, b), []);
  }

  lemma UntraversedStep(t: Shape, b: bool, rest: seq<bool>)
    requires rest != []
    ensures Untraversed(t, [b] + rest) <==> Untraversed(Child(t, b), rest)
  {
    var bits := [b] + rest;
    assert bits[1..] == rest && bits[..|bits| - 1][1..] == rest[..|rest| - 1];
  }

  lemma InPrefixed(b: bool, paths: seq<seq<bool>>, bits: seq<bool>)
    ensures bits in Prefixed(b, paths) <==> bits != [] && bits[0] == b && bits[1..] in paths
  {
    var r := Prefixed(b, paths);
    if bits in r {
      var i :| 0 <= i < |r| && r[i] == bits;
      PrefixedAt(b, paths, i);
      assert paths[i] == bits[1..];
    }
    if bits != [] && bits[0] == b && bits[1..] in paths {
      var i :| 0 <= i < |paths| && paths[i] == bits[1..];
      PrefixedAt(b, paths, i);
      assert r[i] == bits;
    }
  }

  lemma InPaths(t: Shape, b: bool, rest: seq<bool>)
    requires t.Pair? && !(t.left.Hole? && t.right.Hole?)
    ensures [b] + rest in Paths(t) <==> (rest == [] && Child(t, b).Hole?) || rest in Paths(Child(t, b))
  {
    var bits := [b] + rest;
    assert bits[1..] == rest && (rest == [] <==> bits == [b]);
    InPrefixed(false, Paths(t.left), bits);
    InPrefixed(true, Paths(t.right), bits);
    if t.left.Hole? {
      assert bits in Paths(t) <==> bits in [[false]] || bits in Prefixed(true, Paths(t.right));
    } else if t.right.Hole? {
      assert bits in Paths(t) <==> bits in [[true]] || bits in Prefixed(false, Paths(t.left));
    } else {
      assert bits in Paths(t) <==> bits in Prefixed(false, Paths(t.left)) || bits in Prefixed(true, Paths(t.right));
    }
  }

  /** Exactly the untraversed siblings are listed. */
  lemma {:induction false} PathsAre(t: Shape, h: nat, bits: seq<bool>)
    requires WellShaped(t, h)
    ensures bits in Paths(t) <==> Untraversed(t, bits)
    decreases h
  {
    if !t.Pair? {
      NoPair(t, bits);
    } else if bits == [] {
      InPrefixed(false, Paths(t.left), bits);
      InPrefixed(true, Paths(t.right), bits);
    } else {
      var b, rest := bits[0], bits[1..];
      assert bits == [b] + rest;
      InPaths(t, b, rest);
      PathsAre(Child(t, b), h - 1, rest);
      if rest == [] { UntraversedOne(t, b); } else { UntraversedStep(t, b, rest); }
    }
  }

  lemma NoPair(t: Shape, bits: seq<bool>)
    requires !t.Pair?
    ensures !Untraversed(t, bits)
  {
    if bits != [] && bits[..|bits| - 1] != [] {
      BelowHole(Child(t, bits[0]), bits[..|bits| - 1][1..]);
    }
  }

  /** Where the paths part, the untraversed side comes first, and of two traversed sides the left one. */
  ghost predicate Before(t: Shape, s: seq<bool>, u: seq<bool>)
    decreases |s|
  {
    && s != [] && u != []
    && if s[0] == u[0] then Before(Child(t, s[0]), s[1..], u[1..])
       else if Child(t, false).Hole? || Child(t, true).Hole? then Child(t, s[0]).Hole?
       else !s[0]
  }

  /** How many entries come before those of the side that is traversed last. */
  function First(t: Shape): nat
    requires t.Pair?
  {
    if t.left.Hole? || t.right.Hole? then 1 else |Paths(t.left)|
  }

  lemma LaterPath(t: Shape, i: nat, right: bool)
    requires t.Pair? && !(t.left.Hole? && t.right.Hole?) && First(t) <= i < |Paths(t)| && right == !t.right.Hole?
    ensures i - First(t) < |Paths(Child(t, right))|
    ensures Paths(t)[i] != [] && Paths(t)[i][0] == right && Paths(t)[i][1..] == Paths(Child(t, right))[i - First(t)]
  {
    PrefixedAt(right, Paths(Child(t, right)), i - First(t));
    assert Paths(t)[i] == [right] + Paths(Child(t, right))[i - First(t)];
  }

  lemma EarlierPath(t: Shape, i: nat)
    requires t.Pair? && !t.left.Hole? && !t.right.Hole? && i < First(t)
    ensures |Paths(t)| >= First(t) && Paths(t)[i] != [] && !Paths(t)[i][0] && Paths(t)[i][1..] == Paths(t.left)[i]
  {
    PrefixedAt(false, Paths(t.left), i);
    assert Paths(t)[i] == [false] + Paths(t.left)[i];
  }

  lemma FirstPath(t: Shape, right: bool)
    requires t.Pair? && !(t.left.Hole? && t.right.Hole?) && Child(t, right).Hole?
    ensures |Paths(t)| > 0 && Paths(t)[0] == [right]
  {}

  /** The order of the list. */
  lemma {:induction false} PathsOrder(t: Shape, h: nat, i: nat, j: nat, s: seq<bool>, u: seq<bool>)
    requires WellShaped(t, h) && i < j < |Paths(t)| && s == Paths(t)[i] && u == Paths(t)[j]
    ensures Before(t, s, u)
    decreases h, 0
  {
    var n, right := First(t), !t.right.Hole?;
    if i < n <= j {
      OrderHere(t, i, j, right);
    } else {
      var b, k := if i < n then false else right, if i < n then 0 else n;
      SameSide(t, i, j, s, u, b, k);
      OrderBelow(t, h, i - k, j - k, s, u, b);
    }
  }

  lemma {:induction false} SameSide(t: Shape, i: nat, j: nat, s: seq<bool>, u: seq<bool>, b: bool, k: nat)
    requires t.Pair? && !(t.left.Hole? && t.right.Hole?) && i < j < |Paths(t)| && s == Paths(t)[i] && u == Paths(t)[j]
    requires if j < First(t) then !b && k == 0 else First(t) <= i && b == !t.right.Hole? && k == First(t)
    ensures k <= i && j - k < |Paths(Child(t, b))| && s != [] && u != [] && s[0] == u[0] == b
    ensures s[1..] == Paths(Child(t, b))[i - k] && u[1..] == Paths(Child(t, b))[j - k]
  {
    if j < First(t) {
      EarlierPath(t, i);
      EarlierPath(t, j);
    } else {
      LaterPath(t, i, b);
      LaterPath(t, j, b);
    }
  }

  lemma {:induction false} OrderBelow(t: Shape, h: nat, i: nat, j: nat, s: seq<bool>, u: seq<bool>, b: bool)
    requires h > 0 && WellShaped(Child(t, b), h - 1) && i < j < |Paths(Child(t, b))|
    requires s != [] && u != [] && s[0] == u[0] == b
    requires s[1..] == Paths(Child(t, b))[i] && u[1..] == Paths(Child(t, b))[j]
    ensures Before(t, s, u)
    decreases h - 1, 1
  {
    PathsOrder(Child(t, b), h - 1, i, j, s[1..], u[1..]);
  }

  lemma {:induction false} OrderHere(t: Shape, i: nat, j: nat, right: bool)
    requires t.Pair? && !(t.left.Hole? && t.right.Hole?) && i < First(t) <= j < |Paths(t)| && right == !t.right.Hole?
    ensures Before(t, Paths(t)[i], Paths(t)[j])
  {
    LaterPath(t, j, right);
    if t.left.Hole? || t.right.Hole? { FirstPath(t, !right); } else { EarlierPath(t, i); }
  }

  /** The order is strict, so no path is listed twice. */
  lemma {:induction false} BeforeIsStrict(t: Shape, s: seq<bool>, u: seq<bool>)
    requires Before(t, s, u)
    ensures s != u
    decreases |s|
  {
    if s[0] == u[0] { BeforeIsStrict(Child(t, s[0]), s[1..], u[1..]); }
  }
}
