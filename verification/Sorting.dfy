/** Python's `sorted` for a strict order, as insertion sort. */
module Sorting {
  import opened Common

  ghost predicate StrictTotal<T(!new)>(less: (T, T) -> bool) {
    && (forall a {:trigger less(a, a)} :: !less(a, a))
    && (forall a, b, c {:trigger less(a, b), less(b, c)} :: less(a, b) && less(b, c) ==> less(a, c))
    && (forall a, b {:trigger less(a, b)} :: a == b || less(a, b) || less(b, a))
  }

  function Insert<T>(less: (T, T) -> bool, x: T, s: seq<T>): (r: seq<T>)
    ensures |r| == |s| + 1
  {
    if s == [] || less(x, s[0]) then [x] + s else [s[0]] + Insert(less, x, s[1..])
  }

  function Sort<T>(less: (T, T) -> bool, s: seq<T>): (r: seq<T>)
    ensures |r| == |s|
  {
    if s == [] then [] else Insert(less, s[0], Sort(less, s[1..]))
  }

  lemma {:induction false} InsertMultiset<T>(less: (T, T) -> bool, x: T, s: seq<T>)
    ensures multiset(Insert(less, x, s)) == multiset(s) + multiset{x}
  {
    if s == [] || less(x, s[0]) {
    } else {
      InsertMultiset(less, x, s[1..]);
      assert s == [s[0]] + s[1..];
    }
  }

  /** Sorting permutes. */
  lemma {:induction false} SortMultiset<T>(less: (T, T) -> bool, s: seq<T>)
    ensures multiset(Sort(less, s)) == multiset(s)
  {
    if s != [] {
      SortMultiset(less, s[1..]);
      InsertMultiset(less, s[0], Sort(less, s[1..]));
      assert s == [s[0]] + s[1..];
    }
  }

  /** No later element is less than an earlier one. */
  ghost predicate Ascending<T>(less: (T, T) -> bool, s: seq<T>) {
    forall i, j :: 0 <= i < j < |s| ==> !less(s[j], s[i])
  }

  ghost predicate NoneLess<T>(less: (T, T) -> bool, x: T, s: seq<T>) {
    forall j :: 0 <= j < |s| ==> !less(s[j], x)
  }

  lemma AscendingCons<T>(less: (T, T) -> bool, x: T, s: seq<T>)
    requires Ascending(less, s) && NoneLess(less, x, s)
    ensures Ascending(less, [x] + s)
  {}

  lemma {:induction false} InsertNoneLess<T>(less: (T, T) -> bool, y: T, x: T, s: seq<T>)
    requires NoneLess(less, y, s) && !less(x, y)
    ensures NoneLess(less, y, Insert(less, x, s))
  {
    if s == [] || less(x, s[0]) {
    } else {
      InsertNoneLess(less, y, x, s[1..]);
    }
  }

  lemma {:induction false} InsertAscending<T(!new)>(less: (T, T) -> bool, x: T, s: seq<T>)
    requires StrictTotal(less) && Ascending(less, s)
    ensures Ascending(less, Insert(less, x, s))
  {
    if s == [] {
    } else if less(x, s[0]) {
      forall j | 0 <= j < |s| ensures !less(s[j], x) {
        assert j > 0 ==> !less(s[j], s[0]);
      }
      AscendingCons(less, x, s);
    } else {
      InsertAscending(less, x, s[1..]);
      InsertNoneLess(less, s[0], x, s[1..]);
      AscendingCons(less, s[0], Insert(less, x, s[1..]));
    }
  }

  /** Sorting puts in order. */
  lemma {:induction false} SortAscending<T(!new)>(less: (T, T) -> bool, s: seq<T>)
    requires StrictTotal(less)
    ensures Ascending(less, Sort(less, s))
  {
    if s != [] {
      SortAscending(less, s[1..]);
      InsertAscending(less, s[0], Sort(less, s[1..]));
    }
  }

  lemma InMultiset<T>(a: seq<T>, b: seq<T>, i: int)
    requires multiset(a) == multiset(b) && 0 <= i < |a|
    ensures a[i] in b
  {
    assert a[i] in multiset(b);
  }

  lemma SameFirst<T(!new)>(less: (T, T) -> bool, a: seq<T>, b: seq<T>)
    requires StrictTotal(less) && Ascending(less, a) && Ascending(less, b) && multiset(a) == multiset(b)
    requires a != [] && b != []
    ensures a[0] == b[0]
  {
    InMultiset(a, b, 0);
    InMultiset(b, a, 0);
    var k :| 0 <= k < |b| && b[k] == a[0];
    var l :| 0 <= l < |a| && a[l] == b[0];
    assert k > 0 ==> !less(b[k], b[0]);
    assert l > 0 ==> !less(a[l], a[0]);
  }

  lemma DropFirst<T>(a: seq<T>)
    requires a != []
    ensures multiset(a[1..]) == multiset(a) - multiset{a[0]}
  {
    assert a == [a[0]] + a[1..];
  }

  /** There is one ascending arrangement. */
  lemma {:induction false} AscendingUnique<T(!new)>(less: (T, T) -> bool, a: seq<T>, b: seq<T>)
    requires StrictTotal(less) && Ascending(less, a) && Ascending(less, b) && multiset(a) == multiset(b)
    ensures a == b
  {
    assert |a| == |multiset(a)| == |multiset(b)| == |b|;
    if a != [] {
      SameFirst(less, a, b);
      DropFirst(a);
      DropFirst(b);
      AscendingUnique(less, a[1..], b[1..]);
      assert a == [a[0]] + a[1..] && b == [b[0]] + b[1..];
    }
  }

  /** Any ascending permutation is the sorted sequence. */
  lemma SortIs<T(!new)>(less: (T, T) -> bool, s: seq<T>, a: seq<T>)
    requires StrictTotal(less) && Ascending(less, a) && multiset(a) == multiset(s)
    ensures Sort(less, s) == a
  {
    SortAscending(less, s);
    SortMultiset(less, s);
    AscendingUnique(less, Sort(less, s), a);
  }

  /** The sum of the weights. */
  function SumOf<T>(f: T -> int, s: seq<T>): int {
    if s == [] then 0 else f(s[0]) + SumOf(f, s[1..])
  }

  lemma {:induction false} InsertSum<T>(less: (T, T) -> bool, f: T -> int, x: T, s: seq<T>)
    ensures SumOf(f, Insert(less, x, s)) == f(x) + SumOf(f, s)
  {
    if s == [] || less(x, s[0]) {
      assert ([x] + s)[1..] == s;
    } else {
      InsertSum(less, f, x, s[1..]);
      assert ([s[0]] + Insert(less, x, s[1..]))[1..] == Insert(less, x, s[1..]);
    }
  }

  /** Sorting keeps the sum, whatever the order. */
  lemma {:induction false} SortSum<T>(less: (T, T) -> bool, f: T -> int, s: seq<T>)
    ensures SumOf(f, Sort(less, s)) == SumOf(f, s)
  {
    if s != [] {
      SortSum(less, f, s[1..]);
      InsertSum(less, f, s[0], Sort(less, s[1..]));
    }
  }

  lemma TakeOut<T>(b: seq<T>, k: nat)
    requires k < |b|
    ensures multiset(b) == multiset(b[..k] + b[k + 1..]) + multiset{b[k]}
  {
    assert b == b[..k] + [b[k]] + b[k + 1..];
  }

  /** Mapping a permutation gives a permutation. */
  lemma {:induction false} MapMultiset<T, U>(f: T -> U, a: seq<T>, b: seq<T>)
    requires multiset(a) == multiset(b)
    ensures multiset(Map(f, a)) == multiset(Map(f, b))
    decreases |a|
  {
    assert |a| == |multiset(a)| == |multiset(b)| == |b|;
    if a != [] {
      InMultiset(a, b, 0);
      var k :| 0 <= k < |b| && b[k] == a[0];
      TakeOut(b, k);
      DropFirst(a);
      MapMultiset(f, a[1..], b[..k] + b[k + 1..]);
      MapConcat(f, b[..k], b[k + 1..]);
      MapTakeOut(f, b, k);
      assert Map(f, a) == [f(a[0])] + Map(f, a[1..]);
    }
  }

  lemma TakeMiddle<T>(a: seq<T>, x: T, b: seq<T>)
    ensures multiset(a + ([x] + b)) == multiset(a + b) + multiset{x}
  {}

  lemma {:induction false} MapTakeOut<T, U>(f: T -> U, b: seq<T>, k: nat)
    requires k < |b|
    ensures multiset(Map(f, b)) == multiset(Map(f, b[..k]) + Map(f, b[k + 1..])) + multiset{f(b[k])}
  {
    var x, y := b[..k], b[k + 1..];
    assert b == x + ([b[k]] + y);
    MapConcat(f, x, [b[k]] + y);
    assert ([b[k]] + y)[1..] == y;
    TakeMiddle(Map(f, x), f(b[k]), Map(f, y));
  }

  /** The order of the images. */
  function Pullback<T, U>(f: T -> U, less: (U, U) -> bool): (T, T) -> bool {
    (a, b) => less(f(a), f(b))
  }

  /** Sorting mapped elements is mapping sorted ones. */
  lemma {:induction false} MapInsert<T, U>(f: T -> U, less: (U, U) -> bool, x: T, s: seq<T>)
    ensures Map(f, Insert(Pullback(f, less), x, s)) == Insert(less, f(x), Map(f, s))
  {
    var lt := Pullback(f, less);
    if s == [] || lt(x, s[0]) {
      assert ([x] + s)[1..] == s;
    } else {
      MapInsert(f, less, x, s[1..]);
      assert ([s[0]] + Insert(lt, x, s[1..]))[1..] == Insert(lt, x, s[1..]);
      assert Map(f, s)[1..] == Map(f, s[1..]);
    }
  }

  lemma {:induction false} MapSort<T, U>(f: T -> U, less: (U, U) -> bool, s: seq<T>)
    ensures Map(f, Sort(Pullback(f, less), s)) == Sort(less, Map(f, s))
  {
    if s != [] {
      MapSort(f, less, s[1..]);
      MapInsert(f, less, s[0], Sort(Pullback(f, less), s[1..]));
      assert Map(f, s)[1..] == Map(f, s[1..]);
    }
  }
}
