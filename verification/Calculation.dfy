/**
 Hash calculations and the facts they generate
 (src/starkware/starkware_utils/commitment_tree/calculation.py and the two inner calculations of
 patricia_tree/virtual_calculation_node.py).
 */
module Calculation {
  import opened Common
  import opened PatriciaEncoding

  /** A leaf fact: its hash, its `is_empty` flag and the rest of its content. */
  datatype LeafFact = LeafFact(hash: int, isEmpty: bool, content: int)

  datatype HashCalc =
    | Constant(value: int)
    | LeafCalc(fact: LeafFact)
    | BinaryCalc(left: HashCalc, right: HashCalc)
    | EdgeCalc(bottom: HashCalc, path: nat, length: nat)

  /** The contents of a NodeFactDict. */
  datatype Facts = Facts(inner: map<int, NodeFact>, leaves: map<int, LeafFact>)

  const NO_FACTS := Facts(map[], map[])

  /** `dict.update` on both maps. */
  function Merge(a: Facts, b: Facts): Facts {
    Facts(a.inner + b.inner, a.leaves + b.leaves)
  }

  /** `get_dependency_calculations`. */
  function Dependencies(c: HashCalc): (d: seq<HashCalc>)
    ensures forall i :: 0 <= i < |d| ==> d[i] < c
  {
    match c
    case BinaryCalc(l, r) => [l, r]
    case EdgeCalc(b, _, _) => [b]
    case _ => []
  }

  /** `calculate`: the result and the one fact it records, given the results of the
      dependencies. None where the constructor of the fact raises. */
  function Calculate(H: Hash, c: HashCalc, results: seq<int>): Option<(int, Facts)> {
    match c
    case Constant(v) => if |results| == 0 then Some((v, NO_FACTS)) else None
    case LeafCalc(f) => if |results| == 0 then Some((f.hash, Facts(map[], map[f.hash := f]))) else None
    case BinaryCalc(_, _) =>
      if |results| == 2 && results[0] != 0 && results[1] != 0 then Record(H, BinaryFact(results[0], results[1])) else None
    case EdgeCalc(_, path, length) =>
      if |results| == 1 && length > 0 && path < Pow2(length) then Record(H, EdgeFact(results[0], path, length)) else None
  }

  function Record(H: Hash, f: NodeFact): Option<(int, Facts)> {
    Some((HashFact(H, f), Facts(map[HashFact(H, f) := f], map[])))
  }

  /** `full_calculate`: dependencies first, left to right, all into the same dictionary. */
  function FullCalculate(H: Hash, c: HashCalc, facts: Facts): Option<(int, Facts)>
    decreases c, 1
  {
    var deps := FullCalculateAll(H, c, Dependencies(c), facts);
    if deps.None? then None
    else
      var r := Calculate(H, c, deps.value.0);
      if r.None? then None else Some((r.value.0, Merge(deps.value.1, r.value.1)))
  }

  function FullCalculateAll(H: Hash, ghost c: HashCalc, deps: seq<HashCalc>, facts: Facts): (r: Option<(seq<int>, Facts)>)
    requires forall i :: 0 <= i < |deps| ==> deps[i] < c
    decreases c, 0, |deps|
  {
    if deps == [] then Some(([], facts))
    else
      var first := FullCalculate(H, deps[0], facts);
      if first.None? then None
      else
        var rest := FullCalculateAll(H, c, deps[1..], first.value.1);
        if rest.None? then None else Some(([first.value.0] + rest.value.0, rest.value.1))
  }

  // ---------------------------------------------------------------------------
  // Evaluation with an executor
  // ---------------------------------------------------------------------------

  /** `full_calculate_with_executor`: the result, and the dictionaries that the tasks of the
      executor hand back, dependencies before dependents. Each of them is merged into the
      shared dictionary by one `update`, in the order in which the tasks complete. */
  function WithExecutor(H: Hash, c: HashCalc, depth: nat): Option<(int, seq<Facts>)>
    decreases c, 1
  {
    if depth == 0 then
      var r := FullCalculate(H, c, NO_FACTS);
      if r.None? then None else Some((r.value.0, [r.value.1]))
    else
      var deps := WithExecutorAll(H, c, Dependencies(c), depth - 1);
      if deps.None? then None
      else
        var r := Calculate(H, c, deps.value.0);
        if r.None? then None else Some((r.value.0, deps.value.1 + [r.value.1]))
  }

  function WithExecutorAll(H: Hash, ghost c: HashCalc, deps: seq<HashCalc>, depth: nat): (r: Option<(seq<int>, seq<Facts>)>)
    requires forall i :: 0 <= i < |deps| ==> deps[i] < c
    decreases c, 0, |deps|
  {
    if deps == [] then Some(([], []))
    else
      var first := WithExecutor(H, deps[0], depth);
      var rest := WithExecutorAll(H, c, deps[1..], depth);
      if first.None? || rest.None? then None
      else Some(([first.value.0] + rest.value.0, first.value.1 + rest.value.1))
  }

  /** The shared dictionary after a sequence of updates. */
  function MergeAll(base: Facts, chunks: seq<Facts>): Facts
    decreases |chunks|
  {
    if chunks == [] then base else MergeAll(Merge(base, chunks[0]), chunks[1..])
  }

  lemma MergeAssoc(a: Facts, b: Facts, c: Facts)
    ensures Merge(Merge(a, b), c) == Merge(a, Merge(b, c))
  {
    assert a.inner + b.inner + c.inner == a.inner + (b.inner + c.inner);
    assert a.leaves + b.leaves + c.leaves == a.leaves + (b.leaves + c.leaves);
  }

  lemma {:induction false} MergeAllConcat(base: Facts, a: seq<Facts>, b: seq<Facts>)
    ensures MergeAll(base, a + b) == MergeAll(MergeAll(base, a), b)
    decreases |a|
  {
    if a == [] {
      assert a + b == b;
    } else {
      assert (a + b)[1..] == a[1..] + b;
      MergeAllConcat(Merge(base, a[0]), a[1..], b);
    }
  }

  lemma MergeNothing(a: Facts)
    ensures Merge(a, NO_FACTS) == a
  {}

  /** Updates of a dictionary amount to one update by what they put into an empty one. */
  lemma {:induction false} MergeAllAdds(base: Facts, more: Facts, chunks: seq<Facts>)
    ensures MergeAll(Merge(base, more), chunks) == Merge(base, MergeAll(more, chunks))
    decreases |chunks|
  {
    if chunks != [] {
      MergeAssoc(base, more, chunks[0]);
      MergeAllAdds(base, Merge(more, chunks[0]), chunks[1..]);
    }
  }

  /** `full_calculate` into a dictionary adds to it what it puts into an empty one. */
  lemma {:induction false} FullCalculateAdds(H: Hash, c: HashCalc, facts: Facts)
    ensures var r, r0 := FullCalculate(H, c, facts), FullCalculate(H, c, NO_FACTS);
      && (r.None? <==> r0.None?)
      && (r.Some? ==> r.value == (r0.value.0, Merge(facts, r0.value.1)))
    decreases c, 1
  {
    FullCalculateAllAdds(H, c, Dependencies(c), facts);
    var deps := FullCalculateAll(H, c, Dependencies(c), NO_FACTS);
    if deps.Some? {
      var r := Calculate(H, c, deps.value.0);
      if r.Some? { MergeAssoc(facts, deps.value.1, r.value.1); }
    }
  }

  lemma {:induction false} FullCalculateAllAdds(H: Hash, c: HashCalc, deps: seq<HashCalc>, facts: Facts)
    requires forall i :: 0 <= i < |deps| ==> deps[i] < c
    ensures var r, r0 := FullCalculateAll(H, c, deps, facts), FullCalculateAll(H, c, deps, NO_FACTS);
      && (r.None? <==> r0.None?)
      && (r.Some? ==> r.value == (r0.value.0, Merge(facts, r0.value.1)))
    decreases c, 0, |deps|
  {
    if deps != [] {
      FullCalculateAdds(H, deps[0], facts);
      var first := FullCalculate(H, deps[0], NO_FACTS);
      if first.Some? {
        FullCalculateAllAdds(H, c, deps[1..], Merge(facts, first.value.1));
        FullCalculateAllAdds(H, c, deps[1..], first.value.1);
        var rest := FullCalculateAll(H, c, deps[1..], NO_FACTS);
        if rest.Some? { MergeAssoc(facts, first.value.1, rest.value.1); }
      }
    } else {
      assert Merge(facts, NO_FACTS) == facts;
    }
  }

  /** With the executor the result is the same at every depth, and merging the dictionaries in
      dependency order gives the same facts, whatever the hash. */
  lemma {:induction false} ExecutorInOrder(H: Hash, c: HashCalc, depth: nat, base: Facts)
    ensures var r, x := FullCalculate(H, c, base), WithExecutor(H, c, depth);
      && (r.None? <==> x.None?)
      && (r.Some? ==> r.value == (x.value.0, MergeAll(base, x.value.1)))
    decreases c, 1
  {
    FullCalculateAdds(H, c, base);
    if depth > 0 {
      ExecutorInOrderAll(H, c, Dependencies(c), depth - 1, base);
      var deps := WithExecutorAll(H, c, Dependencies(c), depth - 1);
      if deps.Some? {
        var r := Calculate(H, c, deps.value.0);
        if r.Some? { MergeAllConcat(base, deps.value.1, [r.value.1]); }
      }
    }
  }

  lemma {:induction false} ExecutorInOrderAll(H: Hash, c: HashCalc, deps: seq<HashCalc>, depth: nat, base: Facts)
    requires forall i :: 0 <= i < |deps| ==> deps[i] < c
    ensures var r, x := FullCalculateAll(H, c, deps, base), WithExecutorAll(H, c, deps, depth);
      && (r.None? <==> x.None?)
      && (r.Some? ==> r.value == (x.value.0, MergeAll(base, x.value.1)))
    decreases c, 0, |deps|
  {
    if deps != [] {
      ExecutorInOrder(H, deps[0], depth, base);
      var first := WithExecutor(H, deps[0], depth);
      if first.Some? {
        ExecutorInOrderAll(H, c, deps[1..], depth, MergeAll(base, first.value.1));
        ExecutorInOrderAll(H, c, deps[1..], depth, base);
        var rest := WithExecutorAll(H, c, deps[1..], depth);
        if rest.Some? { MergeAllConcat(base, first.value.1, rest.value.1); }
      } else {
        assert FullCalculateAll(H, c, deps, base).None?;
      }
    }
  }

  lemma OneDependency(H: Hash, c: HashCalc, b: HashCalc, facts: Facts)
    requires b < c
    ensures var r, one := FullCalculateAll(H, c, [b], facts), FullCalculate(H, b, facts);
      && (r.None? <==> one.None?)
      && (r.Some? ==> r.value == ([one.value.0], one.value.1))
  {
    var d := [b];
    assert d[1..] == [];
    var one := FullCalculate(H, d[0], facts);
    if one.Some? {
      assert FullCalculateAll(H, c, d[1..], one.value.1) == Some(([], one.value.1));
      assert [one.value.0] + [] == [one.value.0];
    }
  }

  lemma TwoDependencies(H: Hash, c: HashCalc, a: HashCalc, b: HashCalc, facts: Facts)
    requires a < c && b < c
    requires FullCalculate(H, a, facts).Some? && FullCalculate(H, b, FullCalculate(H, a, facts).value.1).Some?
    ensures var one := FullCalculate(H, a, facts).value;
      var two := FullCalculate(H, b, one.1).value;
      FullCalculateAll(H, c, [a, b], facts) == Some(([one.0, two.0], two.1))
  {
    var d := [a, b];
    var one := FullCalculate(H, a, facts).value;
    var two := FullCalculate(H, b, one.1).value;
    assert d[0] == a && d[1..] == [b];
    OneDependency(H, c, b, one.1);
    assert FullCalculateAll(H, c, d[1..], one.1) == Some(([two.0], two.1));
    assert [one.0] + [two.0] == [one.0, two.0];
  }

  // ---------------------------------------------------------------------------
  // Any completion order
  // ---------------------------------------------------------------------------

  ghost predicate InnerIn(chunks: seq<Facts>, k: int) { exists d :: d in chunks && k in d.inner }

  ghost predicate LeafIn(chunks: seq<Facts>, k: int) { exists d :: d in chunks && k in d.leaves }

  /** The keys of the merged dictionary do not depend on the order, whatever the hash. */
  lemma {:induction false} MergeAllKeys(base: Facts, chunks: seq<Facts>, k: int)
    ensures k in MergeAll(base, chunks).inner <==> k in base.inner || InnerIn(chunks, k)
    ensures k in MergeAll(base, chunks).leaves <==> k in base.leaves || LeafIn(chunks, k)
    decreases |chunks|
  {
    if chunks != [] {
      MergeAllKeys(Merge(base, chunks[0]), chunks[1..], k);
      assert forall d :: d in chunks <==> d == chunks[0] || d in chunks[1..];
    }
  }

  ghost predicate Agree(a: Facts, b: Facts) {
    && (forall k :: k in a.inner && k in b.inner ==> a.inner[k] == b.inner[k])
    && (forall k :: k in a.leaves && k in b.leaves ==> a.leaves[k] == b.leaves[k])
  }

  /** The merged dictionary agrees with a dictionary that all merged ones agree with. */
  lemma {:induction false} MergeAllAgrees(base: Facts, chunks: seq<Facts>, all: Facts)
    requires Agree(base, all) && (forall d :: d in chunks ==> Agree(d, all))
    ensures Agree(MergeAll(base, chunks), all)
    decreases |chunks|
  {
    if chunks != [] {
      assert chunks[0] in chunks;
      MergeAllAgrees(Merge(base, chunks[0]), chunks[1..], all);
    }
  }

  ghost function LeafFacts(c: HashCalc): set<LeafFact> {
    match c
    case Constant(_) => {}
    case LeafCalc(f) => {f}
    case BinaryCalc(l, r) => LeafFacts(l) + LeafFacts(r)
    case EdgeCalc(b, _, _) => LeafFacts(b)
  }

  ghost predicate DistinctHashes(fs: set<LeafFact>) {
    forall f, g :: f in fs && g in fs && f.hash == g.hash ==> f == g
  }

  ghost predicate ShortEdges(c: HashCalc, n: nat) {
    match c
    case BinaryCalc(l, r) => ShortEdges(l, n) && ShortEdges(r, n)
    case EdgeCalc(b, _, length) => length <= n && ShortEdges(b, n)
    case _ => true
  }

  /** Every fact is stored under its own hash, and the leaf facts are among `fs`. */
  ghost predicate Keyed(H: Hash, n: nat, fs: set<LeafFact>, d: Facts) {
    && WellKeyed(H, d.inner, n)
    && (forall k :: k in d.leaves ==> d.leaves[k].hash == k && d.leaves[k] in fs)
  }

  lemma KeyedAgree(H: Hash, n: nat, fs: set<LeafFact>, a: Facts, b: Facts)
    requires CollisionFree(H, n) && DistinctHashes(fs) && Keyed(H, n, fs, a) && Keyed(H, n, fs, b)
    ensures Agree(a, b)
  {
    UnionExtends(H, a.inner, b.inner, n);
  }

  lemma CalculateKeyed(H: Hash, n: nat, fs: set<LeafFact>, c: HashCalc, results: seq<int>)
    requires ShortEdges(c, n) && LeafFacts(c) <= fs
    ensures Calculate(H, c, results).Some? ==> Keyed(H, n, fs, Calculate(H, c, results).value.1)
  {}

  lemma {:induction false} FullCalculateKeyed(H: Hash, n: nat, fs: set<LeafFact>, c: HashCalc, facts: Facts)
    requires ShortEdges(c, n) && LeafFacts(c) <= fs && Keyed(H, n, fs, facts)
    ensures FullCalculate(H, c, facts).Some? ==> Keyed(H, n, fs, FullCalculate(H, c, facts).value.1)
    decreases c, 1
  {
    FullCalculateAllKeyed(H, n, fs, c, Dependencies(c), facts);
    var deps := FullCalculateAll(H, c, Dependencies(c), facts);
    if deps.Some? { CalculateKeyed(H, n, fs, c, deps.value.0); }
  }

  lemma {:induction false} FullCalculateAllKeyed(H: Hash, n: nat, fs: set<LeafFact>, c: HashCalc, deps: seq<HashCalc>, facts: Facts)
    requires forall i :: 0 <= i < |deps| ==> deps[i] < c && ShortEdges(deps[i], n) && LeafFacts(deps[i]) <= fs
    requires Keyed(H, n, fs, facts)
    ensures var r := FullCalculateAll(H, c, deps, facts); r.Some? ==> Keyed(H, n, fs, r.value.1)
    decreases c, 0, |deps|
  {
    if deps != [] {
      FullCalculateKeyed(H, n, fs, deps[0], facts);
      var first := FullCalculate(H, deps[0], facts);
      if first.Some? { FullCalculateAllKeyed(H, n, fs, c, deps[1..], first.value.1); }
    }
  }

  lemma {:induction false} ExecutorKeyed(H: Hash, n: nat, fs: set<LeafFact>, c: HashCalc, depth: nat)
    requires ShortEdges(c, n) && LeafFacts(c) <= fs
    ensures var x := WithExecutor(H, c, depth);
      x.Some? ==> forall d :: d in x.value.1 ==> Keyed(H, n, fs, d)
    decreases c, 1
  {
    if depth == 0 {
      FullCalculateKeyed(H, n, fs, c, NO_FACTS);
    } else {
      ExecutorKeyedAll(H, n, fs, c, Dependencies(c), depth - 1);
      var deps := WithExecutorAll(H, c, Dependencies(c), depth - 1);
      if deps.Some? { CalculateKeyed(H, n, fs, c, deps.value.0); }
    }
  }

  lemma {:induction false} ExecutorKeyedAll(H: Hash, n: nat, fs: set<LeafFact>, c: HashCalc, deps: seq<HashCalc>, depth: nat)
    requires forall i :: 0 <= i < |deps| ==> deps[i] < c && ShortEdges(deps[i], n) && LeafFacts(deps[i]) <= fs
    ensures var x := WithExecutorAll(H, c, deps, depth);
      x.Some? ==> forall d :: d in x.value.1 ==> Keyed(H, n, fs, d)
    decreases c, 0, |deps|
  {
    if deps != [] {
      ExecutorKeyed(H, n, fs, deps[0], depth);
      ExecutorKeyedAll(H, n, fs, c, deps[1..], depth);
    }
  }

  lemma SameElements(a: seq<Facts>, b: seq<Facts>)
    requires multiset(a) == multiset(b)
    ensures forall d :: d in a <==> d in b
  {
    assert forall d :: d in a <==> d in multiset(a);
    assert forall d :: d in b <==> d in multiset(b);
  }

  /** The facts of the tasks, merged in any order into an empty dictionary. */
  lemma FactsAnyOrder(H: Hash, n: nat, c: HashCalc, depth: nat, order: seq<Facts>)
    requires CollisionFree(H, n) && ShortEdges(c, n) && DistinctHashes(LeafFacts(c))
    requires WithExecutor(H, c, depth).Some?
    requires multiset(order) == multiset(WithExecutor(H, c, depth).value.1)
    ensures FullCalculate(H, c, NO_FACTS) == Some((WithExecutor(H, c, depth).value.0, MergeAll(NO_FACTS, order)))
  {
    var chunks := WithExecutor(H, c, depth).value.1;
    var fs := LeafFacts(c);
    ExecutorInOrder(H, c, depth, NO_FACTS);
    ExecutorKeyed(H, n, fs, c, depth);
    FullCalculateKeyed(H, n, fs, c, NO_FACTS);
    var all := FullCalculate(H, c, NO_FACTS).value.1;
    SameElements(order, chunks);
    AllAgree(H, n, fs, order, all);
    MergeAllAgrees(NO_FACTS, order, all);
    ExecutorAnyOrderKeys(H, c, depth, order, NO_FACTS);
    SameFacts(MergeAll(NO_FACTS, order), all);
  }

  /** Main result: under a collision-free hash, evaluation with the executor gives the same
      result and leaves the same facts in any dictionary as `full_calculate`, at every depth and
      for every order in which the tasks complete. */
  lemma ExecutorAnyOrder(H: Hash, n: nat, c: HashCalc, depth: nat, order: seq<Facts>, base: Facts)
    requires CollisionFree(H, n) && ShortEdges(c, n) && DistinctHashes(LeafFacts(c))
    requires WithExecutor(H, c, depth).Some?
    requires multiset(order) == multiset(WithExecutor(H, c, depth).value.1)
    ensures FullCalculate(H, c, base) == Some((WithExecutor(H, c, depth).value.0, MergeAll(base, order)))
  {
    FactsAnyOrder(H, n, c, depth, order);
    FullCalculateAdds(H, c, base);
    MergeNothing(base);
    MergeAllAdds(base, NO_FACTS, order);
  }

  lemma AllAgree(H: Hash, n: nat, fs: set<LeafFact>, order: seq<Facts>, all: Facts)
    requires CollisionFree(H, n) && DistinctHashes(fs) && Keyed(H, n, fs, all)
    requires forall d :: d in order ==> Keyed(H, n, fs, d)
    ensures forall d :: d in order ==> Agree(d, all)
  {
    forall d | d in order ensures Agree(d, all) { KeyedAgree(H, n, fs, d, all); }
  }

  lemma SameFacts(a: Facts, b: Facts)
    requires Agree(a, b) && a.inner.Keys == b.inner.Keys && a.leaves.Keys == b.leaves.Keys
    ensures a == b
  {
    assert forall k :: k in a.inner.Keys ==> k in b.inner.Keys && a.inner[k] == b.inner[k];
    assert forall k :: k in a.leaves.Keys ==> k in b.leaves.Keys && a.leaves[k] == b.leaves[k];
    assert a.inner == b.inner && a.leaves == b.leaves;
  }

  /** The recorded hashes are the same for every completion order, whatever the hash. */
  lemma ExecutorAnyOrderKeys(H: Hash, c: HashCalc, depth: nat, order: seq<Facts>, base: Facts)
    requires WithExecutor(H, c, depth).Some?
    requires multiset(order) == multiset(WithExecutor(H, c, depth).value.1)
    ensures FullCalculate(H, c, base).Some?
    ensures MergeAll(base, order).inner.Keys == FullCalculate(H, c, base).value.1.inner.Keys
    ensures MergeAll(base, order).leaves.Keys == FullCalculate(H, c, base).value.1.leaves.Keys
  {
    var chunks := WithExecutor(H, c, depth).value.1;
    ExecutorInOrder(H, c, depth, base);
    SameElements(order, chunks);
    forall k
      ensures k in MergeAll(base, order).inner <==> k in MergeAll(base, chunks).inner
      ensures k in MergeAll(base, order).leaves <==> k in MergeAll(base, chunks).leaves
    {
      MergeAllKeys(base, order, k);
      MergeAllKeys(base, chunks, k);
    }
  }

  // ---------------------------------------------------------------------------
  // The dictionary object and the two evaluations that fill it
  // ---------------------------------------------------------------------------

  class NodeFactDict {
    var innerNodes: map<int, NodeFact>
    var leaves: map<int, LeafFact>

    ghost function Contents(): Facts
      reads this
    {
      Facts(innerNodes, leaves)
    }

    constructor ()
      ensures Contents() == NO_FACTS
    {
      innerNodes, leaves := map[], map[];
    }

    method Update(other: Facts)
      modifies this
      ensures Contents() == Merge(old(Contents()), other)
    {
      innerNodes := innerNodes + other.inner;
      leaves := leaves + other.leaves;
    }
  }

  /** `results` and `facts` are what the first `i` dependencies give. */
  ghost predicate Halfway(H: Hash, c: HashCalc, start: Facts, i: nat, results: seq<int>, facts: Facts)
    requires i <= |Dependencies(c)|
  {
    var deps := Dependencies(c);
    var rest, whole := FullCalculateAll(H, c, deps[i..], facts), FullCalculateAll(H, c, deps, start);
    && (whole.None? <==> rest.None?)
    && (whole.Some? ==> whole.value.0 == results + rest.value.0 && whole.value.1 == rest.value.1)
  }

  lemma HalfwayStart(H: Hash, c: HashCalc, start: Facts)
    ensures Halfway(H, c, start, 0, [], start)
  {
    assert Dependencies(c)[0..] == Dependencies(c);
  }

  lemma HalfwayStep(H: Hash, c: HashCalc, start: Facts, i: nat, results: seq<int>, facts: Facts)
    requires i < |Dependencies(c)| && Halfway(H, c, start, i, results, facts)
    ensures var one := FullCalculate(H, Dependencies(c)[i], facts);
      if one.None? then FullCalculate(H, c, start).None?
      else Halfway(H, c, start, i + 1, results + [one.value.0], one.value.1)
  {
    var deps := Dependencies(c);
    assert deps[i..][0] == deps[i] && deps[i..][1..] == deps[i + 1..];
    var one := FullCalculate(H, deps[i], facts);
    if one.Some? {
      var rest := FullCalculateAll(H, c, deps[i + 1..], one.value.1);
      if rest.Some? { assert results + ([one.value.0] + rest.value.0) == results + [one.value.0] + rest.value.0; }
    }
  }

  lemma HalfwayEnd(H: Hash, c: HashCalc, start: Facts, results: seq<int>, facts: Facts)
    requires Halfway(H, c, start, |Dependencies(c)|, results, facts)
    ensures FullCalculateAll(H, c, Dependencies(c), start) == Some((results, facts))
  {
    var deps := Dependencies(c);
    assert deps[|deps|..] == [] && results + [] == results;
  }

  /** `full_calculate` on a shared dictionary. */
  method FullCalculateInto(H: Hash, c: HashCalc, factNodes: NodeFactDict) returns (r: Option<int>)
    modifies factNodes
    ensures var spec := FullCalculate(H, c, old(factNodes.Contents()));
      && (r.None? <==> spec.None?)
      && (r.Some? ==> r.value == spec.value.0 && factNodes.Contents() == spec.value.1)
    decreases c
  {
    var deps := Dependencies(c);
    var results: seq<int> := [];
    ghost var start := factNodes.Contents();
    HalfwayStart(H, c, start);
    for i := 0 to |deps|
      invariant |results| == i && Halfway(H, c, start, i, results, factNodes.Contents())
    {
      HalfwayStep(H, c, start, i, results, factNodes.Contents());
      var one := FullCalculateInto(H, deps[i], factNodes);
      if one.None? { return None; }
      results := results + [one.value];
    }
    HalfwayEnd(H, c, start, results, factNodes.Contents());
    var own := Calculate(H, c, results);
    if own.None? { return None; }
    factNodes.Update(own.value.1);
    r := Some(own.value.0);
  }

  /** `full_calculate_with_executor`: the tasks complete in an arbitrary order. */
  method FullCalculateWithExecutor(H: Hash, ghost n: nat, c: HashCalc, depth: nat, factNodes: NodeFactDict) returns (r: Option<int>)
    requires CollisionFree(H, n) && ShortEdges(c, n) && DistinctHashes(LeafFacts(c))
    modifies factNodes
    ensures var spec := FullCalculate(H, c, old(factNodes.Contents()));
      && (r.None? <==> spec.None?)
      && (r.Some? ==> r.value == spec.value.0 && factNodes.Contents() == spec.value.1)
  {
    var x := WithExecutor(H, c, depth);
    ghost var start := factNodes.Contents();
    ExecutorInOrder(H, c, depth, start);
    if x.None? { return None; }
    var left := multiset(x.value.1);
    ghost var order: seq<Facts> := [];
    while left != multiset{}
      invariant multiset(order) + left == multiset(x.value.1)
      invariant factNodes.Contents() == MergeAll(start, order)
      decreases |left|
    {
      var chunk :| chunk in left;
      MergeAllConcat(start, order, [chunk]);
      order := order + [chunk];
      left := left - multiset{chunk};
      factNodes.Update(chunk);
    }
    ExecutorAnyOrder(H, n, c, depth, order, start);
    r := Some(x.value.0);
  }
}
