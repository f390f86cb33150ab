/**
 The page sizes of a program output and the fact tree over them
 (src/starkware/cairo/bootloaders/fact_topology.py, generate_fact.py and aggregator_utils.py).
 */
module FactTopology {
  import opened Common
  import opened Sorting
  import OutputRoot

  /** An entry of the pages dictionary. */
  datatype Page = Page(key: string, start: int, size: int)

  /** `int(page_id_str)`; None is a ValueError. */
  type IdOf = string -> Option<int>

  /** An entry of pages_list. */
  datatype Parsed = Parsed(id: int, start: int, size: int)

  predicate ParsedLess(a: Parsed, b: Parsed) {
    a.id < b.id || (a.id == b.id && (a.start < b.start || (a.start == b.start && a.size < b.size)))
  }

  /** The order of Python strings. */
  predicate StringLess(a: string, b: string) {
    if b == [] then false
    else if a == [] then true
    else a[0] < b[0] || (a[0] == b[0] && StringLess(a[1..], b[1..]))
  }

  /** The order of the items of the dictionary, whose keys differ. */
  predicate PageLess(a: Page, b: Page) {
    StringLess(a.key, b.key)
    || (a.key == b.key && (a.start < b.start || (a.start == b.start && a.size < b.size)))
  }

  lemma {:induction false} StringOrder(a: string, b: string, c: string)
    ensures !StringLess(a, a)
    ensures a == b || StringLess(a, b) || StringLess(b, a)
    ensures StringLess(a, b) && StringLess(b, c) ==> StringLess(a, c)
    decreases |a| + |b| + |c|
  {
    if a != [] && b != [] && c != [] {
      StringOrder(a[1..], b[1..], c[1..]);
      assert a == [a[0]] + a[1..] && b == [b[0]] + b[1..];
    } else if a != [] && b != [] {
      StringOrder(a[1..], b[1..], []);
      assert a == [a[0]] + a[1..] && b == [b[0]] + b[1..];
    } else if a != [] {
      StringOrder(a[1..], [], []);
    }
  }

  lemma OrdersAreStrict()
    ensures StrictTotal(ParsedLess) && StrictTotal(PageLess)
  {
    assert StrictTotal(ParsedLess);
    forall a, b, c ensures !PageLess(a, a) && (a == b || PageLess(a, b) || PageLess(b, a))
      && (PageLess(a, b) && PageLess(b, c) ==> PageLess(a, c))
    {
      StringOrder(a.key, b.key, c.key);
      StringOrder(a.key, a.key, c.key);
      StringOrder(b.key, a.key, c.key);
    }
  }

  // ---------------------------------------------------------------------------
  // get_page_sizes_from_page_dict
  // ---------------------------------------------------------------------------

  function ParseAll(id: IdOf, pages: seq<Page>): (r: Option<seq<Parsed>>)
    ensures r.Some? ==> |r.value| == |pages|
  {
    if pages == [] then Some([])
    else
      var first, rest := id(pages[0].key), ParseAll(id, pages[1..]);
      if first.None? || rest.None? then None
      else Some([Parsed(first.value, pages[0].start, pages[0].size)] + rest.value)
  }

  /** The checks of the loop from the page `nextId` on, and the closing check. */
  predicate Links(T: seq<Parsed>, out: int, nextId: int, nextStart: int) {
    if T == [] then nextStart == out
    else
      && T[0].id == nextId && T[0].start == nextStart && 0 < T[0].size <= out
      && Links(T[1..], out, nextId + 1, nextStart + T[0].size)
  }

  /** All the checks. */
  predicate Chain(T: seq<Parsed>, out: int) {
    T == [] || (0 < T[0].start <= out && Links(T, out, 1, T[0].start))
  }

  function Sizes(pages: seq<Page>): (r: seq<int>)
    ensures |r| == |pages| && forall i :: 0 <= i < |pages| ==> r[i] == pages[i].size
  {
    seq(|pages|, i requires 0 <= i < |pages| => pages[i].size)
  }

  function PageSizes(id: IdOf, out: int, pages: seq<Page>): Option<seq<int>> {
    var parsed := ParseAll(id, pages);
    if parsed.None? then None
    else
      var T := Sort(ParsedLess, parsed.value);
      if !Chain(T, out) then None
      else Some([if T == [] then out else T[0].start] + Sizes(Sort(PageLess, pages)))
  }

  method GetPageSizesFromPageDict(id: IdOf, outputSize: int, pages: seq<Page>) returns (r: Option<seq<int>>)
    ensures r == PageSizes(id, outputSize, pages)
  {
    var expectedId := 1;
    var expectedStart: Option<int> := None;
    var page0Size := outputSize;
    var pagesList := ParseAll(id, pages);
    if pagesList.None? { return None; }
    var T := Sort(ParsedLess, pagesList.value);
    for i := 0 to |T|
      invariant expectedId == i + 1
      invariant i == 0 ==> expectedStart == None && page0Size == outputSize
      invariant i > 0 ==> expectedStart.Some? && page0Size == T[0].start && 0 < page0Size <= outputSize
      invariant i > 0 ==>
        Links(T, outputSize, 1, T[0].start) == Links(T[i..], outputSize, expectedId, expectedStart.value)
    {
      var page := T[i];
      assert T[i..][1..] == T[i + 1..];
      if page.id != expectedId { return None; }
      if page.id == 1 {
        if !(0 < page.start <= outputSize) { return None; }
        page0Size := page.start;
      } else {
        if Some(page.start) != expectedStart { return None; }
      }
      if !(0 < page.size <= outputSize) { return None; }
      expectedStart := Some(page.start + page.size);
      expectedId := expectedId + 1;
    }
    if |pages| > 0 {
      if expectedStart != Some(outputSize) { return None; }
    }
    return Some([page0Size] + Sizes(Sort(PageLess, pages)));
  }

  // ---------------------------------------------------------------------------
  // The page sizes add up
  // ---------------------------------------------------------------------------

  function Total(sizes: seq<int>): int {
    SumOf((x: int) => x, sizes)
  }

  lemma {:induction false} TotalOfSizes(pages: seq<Page>)
    ensures Total(Sizes(pages)) == SumOf((p: Page) => p.size, pages)
  {
    if pages != [] {
      TotalOfSizes(pages[1..]);
      assert Sizes(pages)[1..] == Sizes(pages[1..]);
    }
  }

  lemma {:induction false} ParsedTotal(id: IdOf, pages: seq<Page>)
    requires ParseAll(id, pages).Some?
    ensures SumOf((p: Parsed) => p.size, ParseAll(id, pages).value) == SumOf((p: Page) => p.size, pages)
  {
    if pages != [] {
      ParsedTotal(id, pages[1..]);
      assert ParseAll(id, pages).value[1..] == ParseAll(id, pages[1..]).value;
    }
  }

  lemma {:induction false} LinksTotal(T: seq<Parsed>, out: int, nextId: int, nextStart: int)
    requires Links(T, out, nextId, nextStart)
    ensures nextStart + SumOf((p: Parsed) => p.size, T) == out
  {
    if T != [] { LinksTotal(T[1..], out, nextId + 1, nextStart + T[0].size); }
  }

  /** The sizes add up to the output size, in whatever order the raw keys come. */
  lemma PageSizesTotal(id: IdOf, out: int, pages: seq<Page>)
    requires PageSizes(id, out, pages).Some?
    ensures Total(PageSizes(id, out, pages).value) == out
  {
    var parsed := ParseAll(id, pages).value;
    var T := Sort(ParsedLess, parsed);
    var raw := Sort(PageLess, pages);
    var r := PageSizes(id, out, pages).value;
    assert r[1..] == Sizes(raw);
    TotalOfSizes(raw);
    SortSum(PageLess, (p: Page) => p.size, pages);
    ParsedTotal(id, pages);
    SortSum(ParsedLess, (p: Parsed) => p.size, parsed);
    if T != [] { LinksTotal(T, out, 1, T[0].start); }
  }

  // ---------------------------------------------------------------------------
  // Which page dictionaries are accepted
  // ---------------------------------------------------------------------------

  ghost function ParseOne(id: IdOf, p: Page): Parsed {
    Parsed(if id(p.key).Some? then id(p.key).value else 0, p.start, p.size)
  }

  ghost function Parses(id: IdOf, pages: seq<Page>): (r: seq<Parsed>)
    ensures |r| == |pages|
  {
    Map((p: Page) => ParseOne(id, p), pages)
  }

  ghost predicate AllParse(id: IdOf, pages: seq<Page>) {
    forall p :: p in pages ==> id(p.key).Some?
  }

  lemma {:induction false} ParseAllIs(id: IdOf, pages: seq<Page>)
    ensures ParseAll(id, pages) == if AllParse(id, pages) then Some(Parses(id, pages)) else None
  {
    if pages != [] {
      ParseAllIs(id, pages[1..]);
      assert pages == [pages[0]] + pages[1..];
      if AllParse(id, pages[1..]) && id(pages[0].key).Some? {
        assert AllParse(id, pages);
      } else if id(pages[0].key).Some? {
        var p :| p in pages[1..] && id(p.key).None?;
        assert p in pages;
      }
    }
  }

  /** The pages are numbered from 1, follow each other and end with the output. */
  ghost predicate PagesInOrder(id: IdOf, out: int, q: seq<Page>) {
    && (forall i :: 0 <= i < |q| ==> id(q[i].key) == Some(i + 1) && 0 < q[i].size <= out)
    && (forall i :: 0 < i < |q| ==> q[i].start == q[i - 1].start + q[i - 1].size)
    && (q != [] ==> 0 < q[0].start <= out && q[|q| - 1].start + q[|q| - 1].size == out)
  }

  /** The same from page `k + 1` on. */
  ghost predicate InOrderFrom(id: IdOf, out: int, q: seq<Page>, k: nat, s: int) {
    && (forall i :: 0 <= i < |q| ==> id(q[i].key) == Some(k + i + 1) && 0 < q[i].size <= out)
    && (forall i :: 0 < i < |q| ==> q[i].start == q[i - 1].start + q[i - 1].size)
    && (if q == [] then s == out else q[0].start == s && q[|q| - 1].start + q[|q| - 1].size == out)
  }

  lemma {:induction false} InOrderStep(id: IdOf, out: int, q: seq<Page>, k: nat, s: int)
    requires q != []
    ensures InOrderFrom(id, out, q, k, s) <==>
      && id(q[0].key) == Some(k + 1) && q[0].start == s && 0 < q[0].size <= out
      && InOrderFrom(id, out, q[1..], k + 1, s + q[0].size)
  {
    var r := q[1..];
    if InOrderFrom(id, out, r, k + 1, s + q[0].size) && id(q[0].key) == Some(k + 1) && q[0].start == s && 0 < q[0].size <= out {
      forall i | 0 <= i < |q| ensures id(q[i].key) == Some(k + i + 1) && 0 < q[i].size <= out {
        if i > 0 { assert q[i] == r[i - 1]; }
      }
      forall i | 0 < i < |q| ensures q[i].start == q[i - 1].start + q[i - 1].size {
        assert q[i] == r[i - 1];
        if i > 1 { assert q[i - 1] == r[i - 2]; }
      }
    }
    if InOrderFrom(id, out, q, k, s) {
      forall i | 0 <= i < |r| ensures id(r[i].key) == Some(k + 1 + i + 1) && 0 < r[i].size <= out {
        assert r[i] == q[i + 1];
      }
      forall i | 0 < i < |r| ensures r[i].start == r[i - 1].start + r[i - 1].size {
        assert r[i] == q[i + 1] && r[i - 1] == q[i];
      }
    }
  }

  lemma {:induction false} LinksIs(id: IdOf, out: int, q: seq<Page>, k: nat, s: int)
    requires AllParse(id, q)
    ensures Links(Parses(id, q), out, k + 1, s) <==> InOrderFrom(id, out, q, k, s)
    decreases |q|
  {
    if q != [] {
      assert q[0] in q && AllParse(id, q[1..]);
      LinksIs(id, out, q[1..], k + 1, s + q[0].size);
      InOrderStep(id, out, q, k, s);
      assert Parses(id, q)[1..] == Parses(id, q[1..]);
    }
  }

  lemma ChainIs(id: IdOf, out: int, q: seq<Page>)
    requires AllParse(id, q)
    ensures Chain(Parses(id, q), out) <==> PagesInOrder(id, out, q)
  {
    if q != [] {
      LinksIs(id, out, q, 0, q[0].start);
      assert PagesInOrder(id, out, q) <==> 0 < q[0].start <= out && InOrderFrom(id, out, q, 0, q[0].start);
    }
  }

  lemma OrderedParses(id: IdOf, out: int, q: seq<Page>)
    requires PagesInOrder(id, out, q)
    ensures AllParse(id, q) && Ascending(ParsedLess, Parses(id, q))
  {
    forall p | p in q ensures id(p.key).Some? {
      var i :| 0 <= i < |q| && q[i] == p;
    }
    forall i, j | 0 <= i < j < |q| ensures !ParsedLess(Parses(id, q)[j], Parses(id, q)[i]) {
      MapAt((p: Page) => ParseOne(id, p), q, i);
      MapAt((p: Page) => ParseOne(id, p), q, j);
    }
  }

  lemma SameParse(id: IdOf, a: seq<Page>, b: seq<Page>)
    requires multiset(a) == multiset(b) && AllParse(id, a)
    ensures AllParse(id, b)
  {
    forall p | p in b ensures id(p.key).Some? {
      assert p in multiset(b);
    }
  }

  /** If some arrangement of the pages is in order, the checks find it. */
  lemma ArrangedIsAccepted(id: IdOf, out: int, pages: seq<Page>, q: seq<Page>)
    requires multiset(q) == multiset(pages) && PagesInOrder(id, out, q)
    ensures PageSizes(id, out, pages)
         == Some([if q == [] then out else q[0].start] + Sizes(Sort(PageLess, pages)))
  {
    OrderedParses(id, out, q);
    SameParse(id, q, pages);
    ParseAllIs(id, pages);
    MapMultiset((p: Page) => ParseOne(id, p), q, pages);
    OrdersAreStrict();
    SortIs(ParsedLess, Parses(id, pages), Parses(id, q));
    ChainIs(id, out, q);
  }

  lemma SortedIsArranged(id: IdOf, out: int, pages: seq<Page>) returns (q: seq<Page>)
    requires PageSizes(id, out, pages).Some?
    ensures multiset(q) == multiset(pages) && PagesInOrder(id, out, q)
  {
    var f := (p: Page) => ParseOne(id, p);
    q := Sort(Pullback(f, ParsedLess), pages);
    MapSort(f, ParsedLess, pages);
    SortMultiset(Pullback(f, ParsedLess), pages);
    ParseAllIs(id, pages);
    SameParse(id, pages, q);
    assert Parses(id, q) == Sort(ParsedLess, Parses(id, pages));
    ChainIs(id, out, q);
  }

  /** A dictionary is accepted exactly when its pages, suitably arranged, are in order. */
  lemma PageSizesAccepts(id: IdOf, out: int, pages: seq<Page>)
    ensures PageSizes(id, out, pages).Some? <==>
      exists q :: multiset(q) == multiset(pages) && PagesInOrder(id, out, q)
  {
    if PageSizes(id, out, pages).Some? {
      var q := SortedIsArranged(id, out, pages);
    }
    forall q | multiset(q) == multiset(pages) && PagesInOrder(id, out, q) ensures PageSizes(id, out, pages).Some? {
      ArrangedIsAccepted(id, out, pages, q);
    }
  }

  // ---------------------------------------------------------------------------
  // Whether the sizes come in page order
  // ---------------------------------------------------------------------------

  ghost function Keys(q: seq<Page>): seq<string> {
    seq(|q|, i requires 0 <= i < |q| => q[i].key)
  }

  ghost predicate KeysAscend(keys: seq<string>) {
    forall i, j :: 0 <= i < j < |keys| ==> StringLess(keys[i], keys[j])
  }

  /** The sizes in page order, for pages given in that order. */
  ghost function InPageOrder(out: int, q: seq<Page>): seq<int> {
    [if q == [] then out else q[0].start] + Sizes(q)
  }

  lemma AscendingKeys(q: seq<Page>)
    requires KeysAscend(Keys(q))
    ensures Ascending(PageLess, q)
  {
    forall i, j | 0 <= i < j < |q| ensures !PageLess(q[j], q[i]) {
      assert StringLess(Keys(q)[i], Keys(q)[j]);
      StringOrder(q[i].key, q[j].key, q[i].key);
    }
  }

  /** Raw-key order that agrees with page order keeps the sizes in page order. */
  lemma OrderKept(id: IdOf, out: int, pages: seq<Page>, q: seq<Page>)
    requires multiset(q) == multiset(pages) && PagesInOrder(id, out, q) && KeysAscend(Keys(q))
    ensures PageSizes(id, out, pages) == Some(InPageOrder(out, q))
  {
    ArrangedIsAccepted(id, out, pages, q);
    OrdersAreStrict();
    AscendingKeys(q);
    SortIs(PageLess, pages, q);
  }

  /** The start of page `k` when page 0 has one word and page i has i words. */
  ghost function Start(k: nat): nat {
    if k <= 1 then 1 else Start(k - 1) + (k - 1)
  }

  /** Pages of different sizes under the given keys. */
  ghost function Stairs(keys: seq<string>): (q: seq<Page>)
    ensures |q| == |keys|
  {
    seq(|keys|, i requires 0 <= i < |keys| => Page(keys[i], Start(i + 1), i + 1))
  }

  /** The keys name the pages 1, 2, ... */
  ghost predicate NamePages(id: IdOf, keys: seq<string>) {
    forall i :: 0 <= i < |keys| ==> id(keys[i]) == Some(i + 1)
  }

  lemma {:induction false} StartGrows(k: nat, m: nat)
    requires k <= m
    ensures Start(k) <= Start(m) && m <= Start(m + 1)
    decreases m
  {
    if k < m { StartGrows(k, m - 1); } else if m > 1 { StartGrows(m - 1, m - 1); }
  }

  lemma StairsInOrder(id: IdOf, keys: seq<string>)
    requires NamePages(id, keys)
    ensures PagesInOrder(id, Start(|keys| + 1), Stairs(keys)) && Keys(Stairs(keys)) == keys
  {
    KeysOfStairs(keys);
    var q, out := Stairs(keys), Start(|keys| + 1);
    forall i | 0 <= i < |q| ensures id(q[i].key) == Some(i + 1) && 0 < q[i].size <= out { StairFits(i, |keys|); }
    if q != [] { StartGrows(1, |keys| + 1); }
  }

  lemma KeysOfStairs(keys: seq<string>)
    ensures Keys(Stairs(keys)) == keys
  {}

  lemma StairFits(i: nat, m: nat)
    requires i < m
    ensures i + 1 <= Start(m + 1)
  {
    StartGrows(i + 2, m + 1);
    StartGrows(i + 1, i + 1);
  }

  /** A permutation of the stairs with the sizes in order is the stairs. */
  lemma StairsFixed(keys: seq<string>, r: seq<Page>)
    requires multiset(r) == multiset(Stairs(keys)) && Sizes(r) == Sizes(Stairs(keys))
    ensures r == Stairs(keys)
  {
    var q := Stairs(keys);
    assert |r| == |Sizes(r)| == |q|;
    forall i | 0 <= i < |r| ensures r[i] == q[i] {
      InMultiset(r, q, i);
      var k :| 0 <= k < |q| && q[k] == r[i];
      assert Sizes(r)[i] == Sizes(q)[i];
    }
  }

  lemma StairsAscend(id: IdOf, keys: seq<string>)
    requires NamePages(id, keys) && Ascending(PageLess, Stairs(keys))
    ensures KeysAscend(keys)
  {
    var q := Stairs(keys);
    forall i, j | 0 <= i < j < |keys| ensures StringLess(keys[i], keys[j]) {
      assert !PageLess(q[j], q[i]);
      StringOrder(keys[i], keys[j], keys[i]);
      assert id(keys[i]) != id(keys[j]);
    }
  }

  /** If the raw keys are in another order, some pages under these keys come out of order. */
  lemma OrderLost(id: IdOf, keys: seq<string>)
    requires NamePages(id, keys) && !KeysAscend(keys)
    ensures var q := Stairs(keys);
      var out := Start(|keys| + 1);
      PagesInOrder(id, out, q) && Keys(q) == keys && PageSizes(id, out, q).Some?
      && PageSizes(id, out, q) != Some(InPageOrder(out, q))
  {
    var q, out := Stairs(keys), Start(|keys| + 1);
    StairsInOrder(id, keys);
    ArrangedIsAccepted(id, out, q, q);
    var r := Sort(PageLess, q);
    if PageSizes(id, out, q) == Some(InPageOrder(out, q)) {
      var a, b := PageSizes(id, out, q).value, InPageOrder(out, q);
      assert a[1..] == Sizes(r) && b[1..] == Sizes(q);
      OrdersAreStrict();
      SortMultiset(PageLess, q);
      StairsFixed(keys, r);
      SortAscending(PageLess, q);
      StairsAscend(id, keys);
    }
  }

  /** The sizes of every accepted dictionary with these keys come in page order. */
  ghost predicate AlwaysInOrder(id: IdOf, keys: seq<string>) {
    forall out, q {:trigger PagesInOrder(id, out, q)} ::
      Keys(q) == keys && PagesInOrder(id, out, q) ==> PageSizes(id, out, q) == Some(InPageOrder(out, q))
  }

  /** Main result: exactly when the order of the sizes is guaranteed. */
  lemma PageOrderGuaranteed(id: IdOf, keys: seq<string>)
    requires NamePages(id, keys)
    ensures AlwaysInOrder(id, keys) <==> KeysAscend(keys)
  {
    if KeysAscend(keys) {
      forall out, q | Keys(q) == keys && PagesInOrder(id, out, q)
        ensures PageSizes(id, out, q) == Some(InPageOrder(out, q))
      {
        OrderKept(id, out, q, q);
      }
    } else {
      OrderLost(id, keys);
    }
  }

  function Decimal(n: nat): string {
    if n < 10 then ["0123456789"[n]] else Decimal(n / 10) + ["0123456789"[n % 10]]
  }

  ghost function DecimalKeys(m: nat): (r: seq<string>)
    ensures |r| == m
  {
    seq(m, i requires 0 <= i < m => Decimal(i + 1))
  }

  lemma DigitLess(a: nat, b: nat)
    requires 1 <= a < b <= 9
    ensures StringLess(Decimal(a), Decimal(b))
  {
    assert "0123456789"[a] < "0123456789"[b];
  }

  lemma TenBeforeTwo()
    ensures !StringLess(Decimal(2), Decimal(10))
  {
    assert Decimal(10) == Decimal(1) + ["0123456789"[0]];
    assert Decimal(10)[0] == '1' && Decimal(2)[0] == '2';
  }

  /** With decimal keys the order is guaranteed up to nine pages, and lost from ten on. */
  lemma DecimalKeysAscend(m: nat)
    ensures KeysAscend(DecimalKeys(m)) <==> m <= 9
  {
    var keys := DecimalKeys(m);
    if m <= 9 {
      forall i, j | 0 <= i < j < m ensures StringLess(keys[i], keys[j]) { DigitLess(i + 1, j + 1); }
    } else {
      TenBeforeTwo();
      assert !StringLess(keys[1], keys[9]);
    }
  }

  // ---------------------------------------------------------------------------
  // The fact topology
  // ---------------------------------------------------------------------------

  datatype Topology = Topology(tree: seq<int>, pageSizes: seq<int>)

  /** get_fact_topology_from_additional_data; `attribute` is the GPS_FACT_TOPOLOGY entry, if there is one. */
  function TopologyOf(id: IdOf, out: int, pages: seq<Page>, attribute: Option<seq<int>>): Option<Topology> {
    var tree := if attribute.Some? then attribute.value else [1, 0];
    if attribute.Some? && !(|tree| % 2 == 0 && 0 < |tree| <= 10 && forall x :: x in tree ==> 0 <= x < 0x4000_0000) then None
    else if attribute.None? && pages != [] then None
    else
      var sizes := PageSizes(id, out, pages);
      if sizes.None? then None else Some(Topology(tree, sizes.value))
  }

  /** Which topologies are made: an attribute must hold one to five pairs of numbers below 2^30, and without
      an attribute there is the one page only, as a root of its own. */
  lemma TopologyIs(id: IdOf, out: int, pages: seq<Page>, attribute: Option<seq<int>>)
    ensures var t := TopologyOf(id, out, pages, attribute);
      && (t.Some? ==> PageSizes(id, out, pages) == Some(t.value.pageSizes))
      && (attribute.None? ==> (t.Some? <==> pages == [] && PageSizes(id, out, pages).Some?))
      && (attribute.None? && t.Some? ==> t.value == Topology([1, 0], [out]))
      && (attribute.Some? ==>
            (t.Some? <==> |attribute.value| in {2, 4, 6, 8, 10}
                          && (forall x :: x in attribute.value ==> 0 <= x < 1073741824)
                          && PageSizes(id, out, pages).Some?))
      && (attribute.Some? && t.Some? ==> t.value.tree == attribute.value)
  {
    SizesOfNothing(id, out);
  }

  lemma SizesOfNothing(id: IdOf, out: int)
    ensures PageSizes(id, out, []) == Some([out])
  {
    var none: seq<Page> := [];
    assert ParseAll(id, none) == Some([]) && Sort(PageLess, none) == [] && Sizes(none) == [];
    assert [out] + [] == [out];
  }

  ghost predicate Covers(sizes: seq<int>, out: int) {
    sizes != [] && (forall i :: 0 <= i < |sizes| ==> sizes[i] >= 0) && Total(sizes) == out
  }

  lemma SizesInside(id: IdOf, out: nat, pages: seq<Page>)
    requires PageSizes(id, out, pages).Some?
    ensures Covers(PageSizes(id, out, pages).value, out)
  {
    PageSizesTotal(id, out, pages);
    var q := SortedIsArranged(id, out, pages);
    ArrangedIsAccepted(id, out, pages, q);
    var raw := Sort(PageLess, pages);
    SortMultiset(PageLess, pages);
    forall i | 0 <= i < |raw| ensures raw[i].size > 0 {
      InMultiset(raw, q, i);
    }
  }

  // ---------------------------------------------------------------------------
  // Aggregators
  // ---------------------------------------------------------------------------

  /** The offset after `n` tasks that start at `offset`, each led by its size. */
  function AfterTasks(output: seq<nat>, offset: nat, n: nat): Option<nat>
    decreases n
  {
    if n == 0 then Some(offset)
    else if |output| <= offset then None
    else AfterTasks(output, offset + output[offset], n - 1)
  }

  function AggregatorInputSize(output: seq<nat>): Option<nat> {
    if output == [] then None else AfterTasks(output, 1, output[0])
  }

  /** The output of a task, led by its own length. */
  ghost predicate TaskOutput(t: seq<nat>) {
    |t| > 0 && t[0] == |t|
  }

  ghost function Flatten(tasks: seq<seq<nat>>): seq<nat> {
    if tasks == [] then [] else tasks[0] + Flatten(tasks[1..])
  }

  lemma {:induction false} TasksSkipped(before: seq<nat>, tasks: seq<seq<nat>>, rest: seq<nat>)
    requires forall t :: t in tasks ==> TaskOutput(t)
    ensures AfterTasks(before + Flatten(tasks) + rest, |before|, |tasks|) == Some(|before| + |Flatten(tasks)|)
    decreases |tasks|
  {
    if tasks != [] {
      var output := before + Flatten(tasks) + rest;
      assert tasks[0] in tasks;
      assert output == (before + tasks[0]) + Flatten(tasks[1..]) + rest;
      assert output[|before|] == tasks[0][0];
      TasksSkipped(before + tasks[0], tasks[1..], rest);
    }
  }

  /** The number of tasks followed by their outputs is read to its end, whatever comes after. */
  lemma InputIsRead(tasks: seq<seq<nat>>, rest: seq<nat>)
    requires forall t :: t in tasks ==> TaskOutput(t)
    ensures AggregatorInputSize([|tasks|] + Flatten(tasks) + rest) == Some(1 + |Flatten(tasks)|)
  {
    TasksSkipped([|tasks|], tasks, rest);
  }

  lemma FlattenMore(t: seq<nat>, tasks: seq<seq<nat>>)
    ensures Flatten([t] + tasks) == t + Flatten(tasks)
  {
    assert ([t] + tasks)[1..] == tasks;
  }

  /** What is skipped inside the output are task outputs: all of them, unless a size of 0 stops the count. */
  lemma {:induction false} SkippedAreTasks(output: seq<nat>, offset: nat, n: nat) returns (tasks: seq<seq<nat>>)
    requires offset <= |output| && AfterTasks(output, offset, n).Some? && AfterTasks(output, offset, n).value <= |output|
    ensures var end := AfterTasks(output, offset, n).value;
      && offset <= end && output[offset..end] == Flatten(tasks) && (forall t :: t in tasks ==> TaskOutput(t))
      && (|tasks| == n || (|tasks| < n && end < |output| && output[end] == 0))
    decreases n
  {
    tasks := [];
    if n > 0 {
      var next := offset + output[offset];
      var end := AfterTasks(output, offset, n).value;
      AfterGrows(output, next, n - 1);
      if output[offset] == 0 {
        StuckAtZero(output, offset, n);
      } else {
        var more := SkippedAreTasks(output, next, n - 1);
        var t := output[offset..next];
        FlattenMore(t, more);
        assert output[offset..end] == t + output[next..end];
        tasks := [t] + more;
      }
    }
  }

  lemma {:induction false} StuckAtZero(output: seq<nat>, offset: nat, n: nat)
    requires offset < |output| && output[offset] == 0
    ensures AfterTasks(output, offset, n) == Some(offset)
    decreases n
  {
    if n > 0 { StuckAtZero(output, offset, n - 1); }
  }

  lemma {:induction false} AfterGrows(output: seq<nat>, offset: nat, n: nat)
    requires AfterTasks(output, offset, n).Some?
    ensures offset <= AfterTasks(output, offset, n).value
    decreases n
  {
    if n > 0 { AfterGrows(output, offset + output[offset], n - 1); }
  }

  /** get_aggregator_input_size */
  method GetAggregatorInputSize(output: seq<nat>) returns (r: Option<nat>)
    ensures r == AggregatorInputSize(output)
  {
    if |output| == 0 { return None; }
    var offset := 1;
    for i := 0 to output[0]
      invariant offset >= 1
      invariant AfterTasks(output, 1, output[0]) == AfterTasks(output, offset, output[0] - i)
    {
      if |output| <= offset { return None; }
      offset := offset + output[offset];
    }
    return Some(offset);
  }

  /** The aggregator branch: the input is cut off the output and off page 0. */
  function CutInput(output: seq<nat>, t: Topology): Option<(seq<nat>, Topology)>
    requires t.pageSizes != []
  {
    var n := AggregatorInputSize(output);
    if n.None? || t.pageSizes[0] < n.value then None
    else Some((output[OutputRoot.Min(n.value, |output|)..],
               t.(pageSizes := [t.pageSizes[0] - n.value] + t.pageSizes[1..])))
  }

  /** The number of tasks and their outputs are cut off, from the output and from page 0, and the rest is kept. */
  lemma CutInputIs(tasks: seq<seq<nat>>, rest: seq<nat>, t: Topology)
    requires t.pageSizes != [] && forall task :: task in tasks ==> TaskOutput(task)
    ensures var n := 1 + |Flatten(tasks)|;
      CutInput([|tasks|] + Flatten(tasks) + rest, t) ==
        if t.pageSizes[0] < n then None else Some((rest, t.(pageSizes := [t.pageSizes[0] - n] + t.pageSizes[1..])))
  {
    var output := [|tasks|] + Flatten(tasks) + rest;
    InputIsRead(tasks, rest);
    assert output[1 + |Flatten(tasks)|..] == rest;
  }

  lemma FirstPageFits(sizes: seq<int>, out: int)
    requires Covers(sizes, out)
    ensures 0 <= sizes[0] <= out
  {
    TotalNat(sizes[1..]);
  }

  lemma {:induction false} TotalNat(sizes: seq<int>)
    requires forall i :: 0 <= i < |sizes| ==> sizes[i] >= 0
    ensures Total(sizes) >= 0
  {
    if sizes != [] { TotalNat(sizes[1..]); }
  }

  /** The pages still cover the output after the rewrite. */
  lemma CutInputCovers(output: seq<nat>, t: Topology)
    requires Covers(t.pageSizes, |output|) && CutInput(output, t).Some?
    ensures var (rest, t') := CutInput(output, t).value;
      Covers(t'.pageSizes, |rest|) && t'.tree == t.tree && |t'.pageSizes| == |t.pageSizes|
  {
    var n := AggregatorInputSize(output).value;
    FirstPageFits(t.pageSizes, |output|);
    var (rest, t') := CutInput(output, t).value;
    assert t'.pageSizes[1..] == t.pageSizes[1..];
    assert |rest| == |output| - n;
  }

  // ---------------------------------------------------------------------------
  // The fact of a program
  // ---------------------------------------------------------------------------

  datatype FactInfo = FactInfo(output: seq<nat>, topology: Topology, fact: int)

  /** What the fact is computed from. */
  function FactInput(id: IdOf, output: seq<nat>, pages: seq<Page>, attribute: Option<seq<int>>, aggregator: bool)
    : Option<(seq<nat>, Topology)>
  {
    var t := TopologyOf(id, |output|, pages, attribute);
    if t.None? then None else if aggregator then CutInput(output, t.value) else Some((output, t.value))
  }

  lemma FactInputCovers(id: IdOf, output: seq<nat>, pages: seq<Page>, attribute: Option<seq<int>>, aggregator: bool)
    requires FactInput(id, output, pages, attribute, aggregator).Some?
    ensures var (rest, t) := FactInput(id, output, pages, attribute, aggregator).value;
      Covers(t.pageSizes, |rest|)
  {
    SizesInside(id, |output|, pages);
    var t := TopologyOf(id, |output|, pages, attribute).value;
    if aggregator { CutInputCovers(output, t); }
  }

  lemma {:induction false} SumIsTotal(sizes: seq<nat>)
    ensures OutputRoot.Sum(sizes) == Total(sizes)
  {
    if sizes != [] {
      SumIsTotal(sizes[1..]);
      assert sizes == [sizes[0]] + sizes[1..];
      OutputRoot.SumConcat([sizes[0]], sizes[1..]);
      assert [sizes[0]][..0] == [];
    }
  }

  /** get_cairo_pie_fact_info, for a program hash that already has its aggregator prefix. */
  method GetFactInfo(K: OutputRoot.Keccak, id: IdOf, programHash: int, output: seq<nat>, pages: seq<Page>,
                     attribute: Option<seq<int>>, aggregator: bool) returns (r: Option<FactInfo>)
    ensures var input := FactInput(id, output, pages, attribute, aggregator);
      && (r.Some? <==> input.Some? && OutputRoot.Fits(input.value.1.tree, |input.value.1.pageSizes|, 0))
      && (r.Some? ==>
            && r.value.output == input.value.0 && r.value.topology == input.value.1
            && Covers(r.value.topology.pageSizes, |r.value.output|)
            && var root := OutputRoot.Root(K, r.value.output, r.value.topology.pageSizes, r.value.topology.tree);
               root.Some? && r.value.fact == K([programHash, root.value.hash]))
  {
    var input := FactInput(id, output, pages, attribute, aggregator);
    if input.None? { return None; }
    FactInputCovers(id, output, pages, attribute, aggregator);
    var (rest, topology) := input.value;
    SumIsTotal(topology.pageSizes);
    OutputRoot.RootIs(K, rest, topology.pageSizes, topology.tree);
    var root := OutputRoot.GenerateOutputRoot(K, rest, topology.pageSizes, topology.tree);
    if root.None? { return None; }
    return Some(FactInfo(rest, topology, K([programHash, root.value.hash])));
  }
}
