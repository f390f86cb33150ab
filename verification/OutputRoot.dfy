/**
 The tree over the pages of a program output, built by a shift/reduce stack
 (src/starkware/cairo/bootloaders/compute_fact.py).
 */
module OutputRoot {
  import opened Common

  /** keccak_ints as a number. */
  type Keccak = seq<int> -> int

  datatype FactNode = FactNode(hash: int, endOffset: int, size: int, children: seq<FactNode>)

  function Min(a: int, b: int): int {
    if a < b then a else b
  }

  /** `output[from:to]`, which stops at the end of the output. */
  function Slice(output: seq<int>, from: nat, to: nat): seq<int>
    requires from <= to
  {
    output[Min(from, |output|)..Min(to, |output|)]
  }

  function Sum(sizes: seq<nat>): nat {
    if sizes == [] then 0 else Sum(sizes[..|sizes| - 1]) + sizes[|sizes| - 1]
  }

  function SumSizes(nodes: seq<FactNode>): int {
    if nodes == [] then 0 else SumSizes(nodes[..|nodes| - 1]) + nodes[|nodes| - 1].size
  }

  /** The alternating list of hashes and end offsets. */
  function NodeData(nodes: seq<FactNode>): seq<int> {
    if nodes == [] then []
    else NodeData(nodes[..|nodes| - 1]) + [nodes[|nodes| - 1].hash, nodes[|nodes| - 1].endOffset]
  }

  // ---------------------------------------------------------------------------
  // The machine
  // ---------------------------------------------------------------------------

  datatype State = State(pages: seq<nat>, offset: nat, stack: seq<FactNode>)

  function PageNode(K: Keccak, output: seq<int>, offset: nat, size: nat): FactNode {
    FactNode(K(Slice(output, offset, offset + size)), offset + size, size, [])
  }

  function Shift(K: Keccak, output: seq<int>, st: State, n: nat): State
    requires n <= |st.pages|
    decreases n
  {
    if n == 0 then st
    else
      var next := State(st.pages[1..], st.offset + st.pages[0], st.stack + [PageNode(K, output, st.offset, st.pages[0])]);
      Shift(K, output, next, n - 1)
  }

  function Parent(K: Keccak, nodes: seq<FactNode>): FactNode
    requires nodes != []
  {
    FactNode(1 + K(NodeData(nodes)), nodes[|nodes| - 1].endOffset, SumSizes(nodes), nodes)
  }

  /** Replaces the last `n` nodes by their parent. */
  function Reduce(K: Keccak, stack: seq<FactNode>, n: nat): seq<FactNode>
    requires n <= |stack|
  {
    if n == 0 then stack else stack[..|stack| - n] + [Parent(K, stack[|stack| - n..])]
  }

  /** The loop over the pairs of the tree structure; None is a failed check. An odd last entry is ignored. */
  function Run(K: Keccak, output: seq<int>, st: State, tree: seq<int>): Option<State>
    decreases |tree|
  {
    if |tree| < 2 then Some(st)
    else if !(0 <= tree[0] <= |st.pages|) then None
    else
      var shifted := Shift(K, output, st, tree[0]);
      if !(0 <= tree[1] <= |shifted.stack|) then None
      else Run(K, output, shifted.(stack := Reduce(K, shifted.stack, tree[1])), tree[2..])
  }

  /** generate_output_root */
  function Root(K: Keccak, output: seq<int>, pages: seq<nat>, tree: seq<int>): Option<FactNode> {
    var end := Run(K, output, State(pages, 0, []), tree);
    if end.None? || |end.value.stack| != 1 || |end.value.pages| != 0 then None
    else if end.value.offset != end.value.stack[0].endOffset || end.value.offset != |output| then None
    else Some(end.value.stack[0])
  }

  method GenerateOutputRoot(K: Keccak, output: seq<int>, pages: seq<nat>, tree: seq<int>) returns (r: Option<FactNode>)
    ensures r == Root(K, output, pages, tree)
  {
    var pageSizes := pages;
    var offset: nat := 0;
    var nodeStack: seq<FactNode> := [];
    var i := 0;
    while i + 1 < |tree|
      invariant 0 <= i <= |tree|
      invariant Run(K, output, State(pages, 0, []), tree) == Run(K, output, State(pageSizes, offset, nodeStack), tree[i..])
    {
      var nPages, nNodes := tree[i], tree[i + 1];
      assert tree[i..][2..] == tree[i + 2..];
      if !(0 <= nPages <= |pageSizes|) { return None; }
      ghost var st := State(pageSizes, offset, nodeStack);
      for j := 0 to nPages
        invariant nPages - j <= |pageSizes|
        invariant Shift(K, output, st, nPages) == Shift(K, output, State(pageSizes, offset, nodeStack), nPages - j)
      {
        var pageSize := pageSizes[0];
        pageSizes := pageSizes[1..];
        var pageHash := K(Slice(output, offset, offset + pageSize));
        offset := offset + pageSize;
        nodeStack := nodeStack + [FactNode(pageHash, offset, pageSize, [])];
      }
      if !(0 <= nNodes <= |nodeStack|) { return None; }
      if nNodes > 0 {
        var childNodes := nodeStack[|nodeStack| - nNodes..];
        nodeStack := nodeStack[..|nodeStack| - nNodes];
        nodeStack := nodeStack + [Parent(K, childNodes)];
      }
      i := i + 2;
    }
    if |nodeStack| != 1 || |pageSizes| != 0 { return None; }
    if offset != nodeStack[0].endOffset || offset != |output| { return None; }
    return Some(nodeStack[0]);
  }

  // ---------------------------------------------------------------------------
  // What every node says about the output
  // ---------------------------------------------------------------------------

  /** The node covers the output from `start`, and its hash commits to what it covers. */
  ghost predicate Built(K: Keccak, output: seq<int>, node: FactNode, start: int)
    decreases node
  {
    && node.endOffset == start + node.size
    && if node.children == [] then
         start >= 0 && node.size >= 0 && node.hash == K(Slice(output, start, start + node.size))
       else
         && BuiltAll(K, output, node.children, start)
         && node.hash == 1 + K(NodeData(node.children))
         && node.size == SumSizes(node.children)
  }

  /** The nodes tile the output from `start` on. */
  ghost predicate BuiltAll(K: Keccak, output: seq<int>, nodes: seq<FactNode>, start: int)
    decreases nodes
  {
    nodes == [] ||
    (BuiltAll(K, output, nodes[..|nodes| - 1], start)
     && Built(K, output, nodes[|nodes| - 1], start + SumSizes(nodes[..|nodes| - 1])))
  }

  /** The sizes of the pages below a node, in order. */
  ghost function Pages(node: FactNode): seq<int>
    decreases node
  {
    if node.children == [] then [node.size] else AllPages(node.children)
  }

  ghost function AllPages(nodes: seq<FactNode>): seq<int>
    decreases nodes
  {
    if nodes == [] then [] else AllPages(nodes[..|nodes| - 1]) + Pages(nodes[|nodes| - 1])
  }

  lemma {:induction false} SizesConcat(a: seq<FactNode>, b: seq<FactNode>)
    ensures SumSizes(a + b) == SumSizes(a) + SumSizes(b)
    decreases |b|
  {
    if b == [] {
      assert a + b == a;
    } else {
      assert (a + b)[..|a + b| - 1] == a + b[..|b| - 1];
      SizesConcat(a, b[..|b| - 1]);
    }
  }

  lemma {:induction false} PagesConcat(a: seq<FactNode>, b: seq<FactNode>)
    ensures AllPages(a + b) == AllPages(a) + AllPages(b)
    decreases |b|
  {
    if b == [] {
      assert a + b == a;
    } else {
      assert (a + b)[..|a + b| - 1] == a + b[..|b| - 1];
      PagesConcat(a, b[..|b| - 1]);
    }
  }

  lemma {:induction false} BuiltConcat(K: Keccak, output: seq<int>, a: seq<FactNode>, b: seq<FactNode>, start: int)
    ensures BuiltAll(K, output, a + b, start) <==>
      BuiltAll(K, output, a, start) && BuiltAll(K, output, b, start + SumSizes(a))
    decreases |b|
  {
    if b == [] {
      assert a + b == a;
    } else {
      var rest, last := b[..|b| - 1], b[|b| - 1];
      assert (a + b)[..|a + b| - 1] == a + rest && (a + b)[|a + b| - 1] == last;
      BuiltConcat(K, output, a, rest, start);
      SizesConcat(a, rest);
    }
  }

  lemma Concat(K: Keccak, output: seq<int>, a: seq<FactNode>, b: seq<FactNode>, start: int)
    ensures SumSizes(a + b) == SumSizes(a) + SumSizes(b)
    ensures AllPages(a + b) == AllPages(a) + AllPages(b)
    ensures BuiltAll(K, output, a + b, start) <==>
      BuiltAll(K, output, a, start) && BuiltAll(K, output, b, start + SumSizes(a))
  {
    SizesConcat(a, b);
    PagesConcat(a, b);
    BuiltConcat(K, output, a, b, start);
  }

  lemma OneNode(K: Keccak, output: seq<int>, node: FactNode, start: int)
    ensures SumSizes([node]) == node.size && AllPages([node]) == Pages(node)
    ensures BuiltAll(K, output, [node], start) <==> Built(K, output, node, start)
  {
    assert [node][..0] == [];
    assert AllPages([]) + Pages(node) == Pages(node);
  }

  lemma PushNode(K: Keccak, output: seq<int>, stack: seq<FactNode>, node: FactNode, start: int)
    ensures SumSizes(stack + [node]) == SumSizes(stack) + node.size
    ensures AllPages(stack + [node]) == AllPages(stack) + Pages(node)
    ensures BuiltAll(K, output, stack + [node], start) <==>
      BuiltAll(K, output, stack, start) && Built(K, output, node, start + SumSizes(stack))
  {
    OneNode(K, output, node, start + SumSizes(stack));
    Concat(K, output, stack, [node], start);
  }

  /** The stack tiles the consumed output, and its pages with those left are the pages in order. */
  ghost predicate Inv(K: Keccak, output: seq<int>, st: State, pages: seq<int>) {
    && BuiltAll(K, output, st.stack, 0)
    && SumSizes(st.stack) == st.offset
    && AllPages(st.stack) + st.pages == pages
  }

  lemma {:induction false} ShiftInv(K: Keccak, output: seq<int>, st: State, n: nat, pages: seq<int>)
    requires n <= |st.pages| && Inv(K, output, st, pages)
    ensures Inv(K, output, Shift(K, output, st, n), pages)
    decreases n
  {
    if n > 0 {
      var size := st.pages[0];
      var node := PageNode(K, output, st.offset, size);
      PushNode(K, output, st.stack, node, 0);
      var next := State(st.pages[1..], st.offset + size, st.stack + [node]);
      assert st.pages == [size] + st.pages[1..];
      assert AllPages(st.stack) + [size] + st.pages[1..] == AllPages(st.stack) + st.pages;
      ShiftInv(K, output, next, n - 1, pages);
    }
  }

  lemma LastEnd(K: Keccak, output: seq<int>, nodes: seq<FactNode>, start: int)
    requires nodes != [] && BuiltAll(K, output, nodes, start)
    ensures nodes[|nodes| - 1].endOffset == start + SumSizes(nodes)
  {}

  lemma ReduceInv(K: Keccak, output: seq<int>, st: State, n: nat, pages: seq<int>)
    requires n <= |st.stack| && Inv(K, output, st, pages)
    ensures Inv(K, output, st.(stack := Reduce(K, st.stack, n)), pages)
  {
    if n > 0 {
      var rest, nodes := st.stack[..|st.stack| - n], st.stack[|st.stack| - n..];
      assert st.stack == rest + nodes;
      Concat(K, output, rest, nodes, 0);
      LastEnd(K, output, nodes, SumSizes(rest));
      PushNode(K, output, rest, Parent(K, nodes), 0);
    }
  }

  /** Every state of a run has the invariant. */
  lemma {:induction false} RunInv(K: Keccak, output: seq<int>, st: State, tree: seq<int>, pages: seq<int>)
    requires Inv(K, output, st, pages) && Run(K, output, st, tree).Some?
    ensures Inv(K, output, Run(K, output, st, tree).value, pages)
    decreases |tree|
  {
    if |tree| >= 2 {
      var shifted := Shift(K, output, st, tree[0]);
      ShiftInv(K, output, st, tree[0], pages);
      ReduceInv(K, output, shifted, tree[1], pages);
      RunInv(K, output, shifted.(stack := Reduce(K, shifted.stack, tree[1])), tree[2..], pages);
    }
  }

  // ---------------------------------------------------------------------------
  // Which tree structures are accepted
  // ---------------------------------------------------------------------------

  /** A tree structure fits `left` pages and a stack of `depth` nodes. */
  predicate Fits(tree: seq<int>, left: nat, depth: nat)
    decreases |tree|
  {
    if |tree| < 2 then left == 0 && depth == 1
    else
      && 0 <= tree[0] <= left
      && 0 <= tree[1] <= depth + tree[0]
      && Fits(tree[2..], left - tree[0], if tree[1] == 0 then depth + tree[0] else depth + tree[0] - tree[1] + 1)
  }

  lemma {:induction false} ShiftCounts(K: Keccak, output: seq<int>, st: State, n: nat)
    requires n <= |st.pages|
    ensures |Shift(K, output, st, n).pages| == |st.pages| - n
    ensures |Shift(K, output, st, n).stack| == |st.stack| + n
    decreases n
  {
    if n > 0 {
      var next := State(st.pages[1..], st.offset + st.pages[0], st.stack + [PageNode(K, output, st.offset, st.pages[0])]);
      ShiftCounts(K, output, next, n - 1);
    }
  }

  lemma {:induction false} RunFits(K: Keccak, output: seq<int>, st: State, tree: seq<int>)
    ensures var end := Run(K, output, st, tree);
      Fits(tree, |st.pages|, |st.stack|) <==> end.Some? && |end.value.stack| == 1 && |end.value.pages| == 0
    decreases |tree|
  {
    if |tree| >= 2 && 0 <= tree[0] <= |st.pages| {
      var shifted := Shift(K, output, st, tree[0]);
      ShiftCounts(K, output, st, tree[0]);
      if 0 <= tree[1] <= |shifted.stack| {
        RunFits(K, output, shifted.(stack := Reduce(K, shifted.stack, tree[1])), tree[2..]);
      }
    }
  }

  lemma {:induction false} PagesSum(K: Keccak, output: seq<int>, nodes: seq<FactNode>, start: int, pages: seq<nat>)
    requires BuiltAll(K, output, nodes, start) && AllPages(nodes) == pages
    ensures SumSizes(nodes) == Sum(pages)
    decreases nodes
  {
    if nodes != [] {
      var rest, last := nodes[..|nodes| - 1], nodes[|nodes| - 1];
      var a, b := AllPages(rest), Pages(last);
      assert pages == a + b;
      assert a == pages[..|a|] && b == pages[|a|..];
      PagesSum(K, output, rest, start, pages[..|a|]);
      NodeSum(K, output, last, start + SumSizes(rest), pages[|a|..]);
      SumConcat(pages[..|a|], pages[|a|..]);
    }
  }

  lemma {:induction false} NodeSum(K: Keccak, output: seq<int>, node: FactNode, start: int, pages: seq<nat>)
    requires Built(K, output, node, start) && Pages(node) == pages
    ensures node.size == Sum(pages)
    decreases node
  {
    if node.children == [] {
      assert pages == [node.size] && pages[..0] == [];
    } else {
      PagesSum(K, output, node.children, start, pages);
    }
  }

  lemma {:induction false} SumConcat(a: seq<nat>, b: seq<nat>)
    ensures Sum(a + b) == Sum(a) + Sum(b)
    decreases |b|
  {
    if b == [] {
      assert a + b == a;
    } else {
      assert (a + b)[..|a + b| - 1] == a + b[..|b| - 1];
      SumConcat(a, b[..|b| - 1]);
    }
  }

  lemma EndIs(K: Keccak, output: seq<int>, st: State, pages: seq<nat>)
    requires Inv(K, output, st, pages) && |st.stack| == 1 && |st.pages| == 0
    ensures var root := st.stack[0];
      Built(K, output, root, 0) && Pages(root) == pages && root.size == root.endOffset == st.offset == Sum(pages)
  {
    var root := st.stack[0];
    assert st.stack == [root];
    OneNode(K, output, root, 0);
    assert AllPages([root]) + [] == AllPages([root]);
    NodeSum(K, output, root, 0, pages);
  }

  lemma StartInv(K: Keccak, output: seq<int>, pages: seq<nat>)
    ensures Inv(K, output, State(pages, 0, []), pages)
  {
    assert AllPages([]) + pages == pages;
  }

  // ---------------------------------------------------------------------------
  // The shape of the root
  // ---------------------------------------------------------------------------

  datatype Op = ShiftPage | ReduceNodes(n: nat)

  function Shifts(n: nat): (r: seq<Op>)
    ensures |r| == n
  {
    if n == 0 then [] else [ShiftPage] + Shifts(n - 1)
  }

  /** The operations a tree structure lists; a reduce of no nodes does nothing. */
  function Listed(tree: seq<int>): seq<Op>
    decreases |tree|
  {
    if |tree| < 2 || tree[0] < 0 || tree[1] < 0 then []
    else Shifts(tree[0]) + (if tree[1] == 0 then [] else [ReduceNodes(tree[1])]) + Listed(tree[2..])
  }

  /** A node read in post-order: a shift for each page, a reduce for each inner node. */
  ghost function PostOrder(node: FactNode): (r: seq<Op>)
    ensures r != []
    decreases node
  {
    if node.children == [] then [ShiftPage] else PostOrders(node.children) + [ReduceNodes(|node.children|)]
  }

  ghost function PostOrders(nodes: seq<FactNode>): (r: seq<Op>)
    ensures r == [] <==> nodes == []
    decreases nodes
  {
    if nodes == [] then [] else PostOrders(nodes[..|nodes| - 1]) + PostOrder(nodes[|nodes| - 1])
  }

  lemma {:induction false} PushOrder(stack: seq<FactNode>, node: FactNode)
    ensures PostOrders(stack + [node]) == PostOrders(stack) + PostOrder(node)
  {
    assert (stack + [node])[..|stack|] == stack;
  }

  lemma {:induction false} OrdersConcat(a: seq<FactNode>, b: seq<FactNode>)
    ensures PostOrders(a + b) == PostOrders(a) + PostOrders(b)
    decreases |b|
  {
    if b == [] {
      assert a + b == a;
    } else {
      assert (a + b)[..|a + b| - 1] == a + b[..|b| - 1];
      OrdersConcat(a, b[..|b| - 1]);
    }
  }

  lemma {:induction false} ShiftOrder(K: Keccak, output: seq<int>, st: State, n: nat)
    requires n <= |st.pages|
    ensures PostOrders(Shift(K, output, st, n).stack) == PostOrders(st.stack) + Shifts(n)
    decreases n
  {
    if n > 0 {
      var node := PageNode(K, output, st.offset, st.pages[0]);
      var next := State(st.pages[1..], st.offset + st.pages[0], st.stack + [node]);
      PushOrder(st.stack, node);
      ShiftOrder(K, output, next, n - 1);
    }
  }

  lemma {:induction false} ReduceOrder(K: Keccak, stack: seq<FactNode>, n: nat)
    requires n <= |stack|
    ensures PostOrders(Reduce(K, stack, n)) == PostOrders(stack) + if n == 0 then [] else [ReduceNodes(n)]
  {
    if n > 0 {
      var rest, nodes := stack[..|stack| - n], stack[|stack| - n..];
      assert stack == rest + nodes;
      OrdersConcat(rest, nodes);
      PushOrder(rest, Parent(K, nodes));
    }
  }

  /** The last operation tells whether the last node is a page, and otherwise how many children it has. */
  lemma {:induction false} LastOp(nodes: seq<FactNode>)
    requires nodes != []
    ensures var rest, last, ops := nodes[..|nodes| - 1], nodes[|nodes| - 1], PostOrders(nodes);
      && ops[|ops| - 1] == (if last.children == [] then ShiftPage else ReduceNodes(|last.children|))
      && ops[..|ops| - 1] == PostOrders(rest + last.children)
  {
    var rest, last, ops := nodes[..|nodes| - 1], nodes[|nodes| - 1], PostOrders(nodes);
    assert ops == PostOrders(rest) + PostOrder(last);
    if last.children == [] {
      assert PostOrder(last) == [ShiftPage];
      assert rest + [] == rest;
    } else {
      OrdersConcat(rest, last.children);
      assert PostOrder(last) == PostOrders(last.children) + [ReduceNodes(|last.children|)];
      assert ops == PostOrders(rest + last.children) + [ReduceNodes(|last.children|)];
    }
  }

  lemma InRow(a: seq<Op>, b: seq<Op>, c: seq<Op>, d: seq<Op>)
    ensures ((a + b) + c) + d == a + (b + c + d)
  {}

  /** A run appends to the post-order of the stack what the tree structure lists. */
  lemma {:induction false} RunOrder(K: Keccak, output: seq<int>, st: State, tree: seq<int>)
    requires Run(K, output, st, tree).Some?
    ensures PostOrders(Run(K, output, st, tree).value.stack) == PostOrders(st.stack) + Listed(tree)
    decreases |tree|
  {
    if |tree| >= 2 {
      var shifted := Shift(K, output, st, tree[0]);
      ShiftOrder(K, output, st, tree[0]);
      ReduceOrder(K, shifted.stack, tree[1]);
      var reduces := if tree[1] == 0 then [] else [ReduceNodes(tree[1])];
      RunOrder(K, output, shifted.(stack := Reduce(K, shifted.stack, tree[1])), tree[2..]);
      InRow(PostOrders(st.stack), Shifts(tree[0]), reduces, Listed(tree[2..]));
    }
  }

  lemma {:induction false} RootOrder(K: Keccak, output: seq<int>, st: State, tree: seq<int>)
    requires st.stack == [] && Run(K, output, st, tree).Some? && |Run(K, output, st, tree).value.stack| == 1
    ensures PostOrder(Run(K, output, st, tree).value.stack[0]) == Listed(tree)
  {
    var stack := Run(K, output, st, tree).value.stack;
    RunOrder(K, output, st, tree);
    PushOrder([], stack[0]);
    assert stack == [] + [stack[0]];
    assert [] + PostOrder(stack[0]) == PostOrder(stack[0]) && [] + Listed(tree) == Listed(tree);
  }

  /** Main result: when there is a root, and what it says. */
  lemma RootIs(K: Keccak, output: seq<int>, pages: seq<nat>, tree: seq<int>)
    ensures Root(K, output, pages, tree).Some? <==> Fits(tree, |pages|, 0) && Sum(pages) == |output|
    ensures Root(K, output, pages, tree).Some? ==>
      var root := Root(K, output, pages, tree).value;
      && Built(K, output, root, 0) && Pages(root) == pages && root.size == root.endOffset == |output|
      && PostOrder(root) == Listed(tree)
  {
    var start := State(pages, 0, []);
    RunFits(K, output, start, tree);
    var end := Run(K, output, start, tree);
    if end.Some? && |end.value.stack| == 1 && |end.value.pages| == 0 {
      StartInv(K, output, pages);
      RunInv(K, output, start, tree, pages);
      EndIs(K, output, end.value, pages);
      RootOrder(K, output, start, tree);
    }
  }

  lemma {:induction false} SameLast(K: Keccak, output: seq<int>, a: FactNode, b: FactNode, start: int)
    requires Built(K, output, a, start) && Built(K, output, b, start) && a.children == b.children
    requires a.children == [] ==> a.size == b.size
    ensures a == b
  {}

  lemma {:induction false} LastPages(nodes: seq<FactNode>)
    requires nodes != []
    ensures var rest, last, pages := nodes[..|nodes| - 1], nodes[|nodes| - 1], AllPages(nodes);
      && pages == AllPages(rest + last.children) + if last.children == [] then [last.size] else []
  {
    var rest, last, pages := nodes[..|nodes| - 1], nodes[|nodes| - 1], AllPages(nodes);
    assert pages == AllPages(rest) + Pages(last);
    PagesConcat(rest, last.children);
  }

  lemma {:induction false} LastBuilt(K: Keccak, output: seq<int>, nodes: seq<FactNode>, start: int)
    requires nodes != [] && BuiltAll(K, output, nodes, start)
    ensures var rest, last := nodes[..|nodes| - 1], nodes[|nodes| - 1];
      && BuiltAll(K, output, rest, start) && Built(K, output, last, start + SumSizes(rest))
      && BuiltAll(K, output, rest + last.children, start)
  {
    var rest, last := nodes[..|nodes| - 1], nodes[|nodes| - 1];
    BuiltConcat(K, output, rest, last.children, start);
  }

  lemma SameParts<T>(a: seq<T>, b: seq<T>, c: seq<T>, d: seq<T>)
    requires a + b == c + d && |b| == |d|
    ensures a == c && b == d
  {
    assert a == (a + b)[..|a|] && c == (c + d)[..|c|] && b == (a + b)[|a|..] && d == (c + d)[|c|..];
  }

  /** Taking the last node apart undoes its operation on both sides. */
  lemma {:induction false} SameTails(a: seq<FactNode>, b: seq<FactNode>)
    requires a != [] && b != [] && AllPages(a) == AllPages(b) && PostOrders(a) == PostOrders(b)
    ensures var ra, la, rb, lb := a[..|a| - 1], a[|a| - 1], b[..|b| - 1], b[|b| - 1];
      && |la.children| == |lb.children| && (la.children == [] ==> la.size == lb.size)
      && AllPages(ra + la.children) == AllPages(rb + lb.children)
      && PostOrders(ra + la.children) == PostOrders(rb + lb.children)
      && |PostOrders(ra + la.children)| < |PostOrders(a)|
  {
    var ra, la, rb, lb := a[..|a| - 1], a[|a| - 1], b[..|b| - 1], b[|b| - 1];
    LastOp(a);
    LastOp(b);
    LastPages(a);
    LastPages(b);
    SameParts(AllPages(ra + la.children), if la.children == [] then [la.size] else [],
              AllPages(rb + lb.children), if lb.children == [] then [lb.size] else []);
  }

  /** Nodes that tile the output are determined by their pages and their post-order. */
  lemma {:induction false} SameNodes(K: Keccak, output: seq<int>, a: seq<FactNode>, b: seq<FactNode>, start: int, ops: seq<Op>)
    requires BuiltAll(K, output, a, start) && BuiltAll(K, output, b, start)
    requires AllPages(a) == AllPages(b) && PostOrders(a) == PostOrders(b) == ops
    ensures a == b
    decreases |ops|
  {
    if a != [] {
      var ra, la, rb, lb := a[..|a| - 1], a[|a| - 1], b[..|b| - 1], b[|b| - 1];
      SameTails(a, b);
      LastBuilt(K, output, a, start);
      LastBuilt(K, output, b, start);
      SameNodes(K, output, ra + la.children, rb + lb.children, start, PostOrders(ra + la.children));
      SameParts(ra, la.children, rb, lb.children);
      SameLast(K, output, la, lb, start + SumSizes(ra));
      assert a == ra + [la] && b == rb + [lb];
    }
  }

  /** The root is the only tree over these pages with the shape that is listed. */
  lemma {:induction false} RootOnly(K: Keccak, output: seq<int>, pages: seq<nat>, tree: seq<int>, node: FactNode)
    requires Root(K, output, pages, tree).Some?
    requires Built(K, output, node, 0) && Pages(node) == pages && PostOrder(node) == Listed(tree)
    ensures Root(K, output, pages, tree).value == node
  {
    var root := Root(K, output, pages, tree).value;
    RootIs(K, output, pages, tree);
    OneNode(K, output, root, 0);
    OneNode(K, output, node, 0);
    PushOrder([], root);
    PushOrder([], node);
    assert [] + [root] == [root] && [] + [node] == [node];
    SameNodes(K, output, [root], [node], 0, PostOrders([root]));
  }

  // ---------------------------------------------------------------------------
  // The root hash determines the output
  // ---------------------------------------------------------------------------

  /** No collisions, also not between a page hash and the hash of an inner node. */
  ghost predicate Ideal(K: Keccak) {
    && (forall a, b :: K(a) == K(b) ==> a == b)
    && (forall a, b :: K(a) != 1 + K(b))
  }

  lemma IdealFacts(K: Keccak, a: seq<int>, b: seq<int>)
    requires Ideal(K)
    ensures (K(a) == K(b) ==> a == b) && K(a) != 1 + K(b) && K(b) != 1 + K(a)
  {}

  lemma {:induction false} SizeNat(K: Keccak, output: seq<int>, node: FactNode, start: int)
    requires Built(K, output, node, start)
    ensures node.size >= 0
    decreases node
  {
    if node.children != [] { SizesNat(K, output, node.children, start); }
  }

  lemma {:induction false} SizesNat(K: Keccak, output: seq<int>, nodes: seq<FactNode>, start: int)
    requires BuiltAll(K, output, nodes, start)
    ensures SumSizes(nodes) >= 0
    decreases nodes
  {
    if nodes != [] {
      SizesNat(K, output, nodes[..|nodes| - 1], start);
      SizeNat(K, output, nodes[|nodes| - 1], start + SumSizes(nodes[..|nodes| - 1]));
    }
  }

  /** Two outputs agree from `start` to `end`. */
  ghost predicate SamePart(a: seq<int>, b: seq<int>, start: int, end: int) {
    0 <= start <= end <= |a| && end <= |b| && a[start..end] == b[start..end]
  }

  lemma SamePartJoin(a: seq<int>, b: seq<int>, start: int, mid: int, end: int)
    requires SamePart(a, b, start, mid) && SamePart(a, b, mid, end)
    ensures SamePart(a, b, start, end)
  {
    assert a[start..end] == a[start..mid] + a[mid..end];
    assert b[start..end] == b[start..mid] + b[mid..end];
  }

  lemma {:induction false} SlicesBind(K: Keccak, outA: seq<int>, outB: seq<int>, start: nat, m: nat, n: nat)
    requires Ideal(K) && start + m <= |outA| && start + n <= |outB|
    requires K(Slice(outA, start, start + m)) == K(Slice(outB, start, start + n))
    ensures m == n && SamePart(outA, outB, start, start + m)
  {
    IdealFacts(K, Slice(outA, start, start + m), Slice(outB, start, start + n));
    assert |Slice(outA, start, start + m)| == m && |Slice(outB, start, start + n)| == n;
  }

  lemma {:induction false} PageBinds(K: Keccak, outA: seq<int>, outB: seq<int>, a: FactNode, b: FactNode, start: nat)
    requires Ideal(K) && Built(K, outA, a, start) && Built(K, outB, b, start) && a.hash == b.hash
    requires a.children == [] && b.children == [] && a.endOffset <= |outA| && b.endOffset <= |outB|
    ensures a == b && SamePart(outA, outB, start, a.endOffset)
  {
    SlicesBind(K, outA, outB, start, a.size, b.size);
  }

  lemma {:induction false} NodeBinds(K: Keccak, outA: seq<int>, outB: seq<int>, a: FactNode, b: FactNode, start: nat)
    requires Ideal(K) && Built(K, outA, a, start) && Built(K, outB, b, start) && a.hash == b.hash
    requires a.endOffset <= |outA| && b.endOffset <= |outB|
    ensures a == b && SamePart(outA, outB, start, a.endOffset)
    decreases a
  {
    if a.children == [] && b.children == [] {
      PageBinds(K, outA, outB, a, b, start);
    } else if a.children == [] {
      assert false;
    } else if b.children == [] {
      assert false;
    } else {
      IdealFacts(K, NodeData(a.children), NodeData(b.children));
      NodesBind(K, outA, outB, a.children, b.children, start);
    }
  }

  lemma {:induction false} NodesBind(K: Keccak, outA: seq<int>, outB: seq<int>, a: seq<FactNode>, b: seq<FactNode>, start: nat)
    requires Ideal(K) && BuiltAll(K, outA, a, start) && BuiltAll(K, outB, b, start) && NodeData(a) == NodeData(b)
    requires start + SumSizes(a) <= |outA| && start + SumSizes(b) <= |outB|
    ensures a == b && SamePart(outA, outB, start, start + SumSizes(a))
    decreases a
  {
    DataLength(a);
    DataLength(b);
    if a == [] {
      assert outA[start..start] == outB[start..start];
    } else {
      var ra, la, rb, lb := a[..|a| - 1], a[|a| - 1], b[..|b| - 1], b[|b| - 1];
      assert NodeData(ra) == NodeData(rb) && la.hash == lb.hash by { DataSplit(a, b); }
      SizeNat(K, outA, la, start + SumSizes(ra));
      SizeNat(K, outB, lb, start + SumSizes(rb));
      NodesBind(K, outA, outB, ra, rb, start);
      SizesNat(K, outA, ra, start);
      NodeBinds(K, outA, outB, la, lb, start + SumSizes(ra));
      SamePartJoin(outA, outB, start, start + SumSizes(ra), start + SumSizes(a));
    }
  }

  lemma {:induction false} DataLength(nodes: seq<FactNode>)
    ensures |NodeData(nodes)| == 2 * |nodes|
  {
    if nodes != [] { DataLength(nodes[..|nodes| - 1]); }
  }

  lemma DataSplit(a: seq<FactNode>, b: seq<FactNode>)
    requires a != [] && b != [] && NodeData(a) == NodeData(b)
    ensures NodeData(a[..|a| - 1]) == NodeData(b[..|b| - 1]) && a[|a| - 1].hash == b[|b| - 1].hash
  {
    var x, y := NodeData(a[..|a| - 1]), NodeData(b[..|b| - 1]);
    var u, v := [a[|a| - 1].hash, a[|a| - 1].endOffset], [b[|b| - 1].hash, b[|b| - 1].endOffset];
    assert x + u == y + v;
    assert |x| == |y|;
    assert (x + u)[..|x|] == x && (y + v)[..|y|] == y;
    assert (x + u)[|x|] == u[0] && (y + v)[|y|] == v[0];
  }

  /** Main result: equal root hashes mean equal outputs, cut into equal pages under equal trees. */
  lemma RootBinds(K: Keccak, outA: seq<int>, pagesA: seq<nat>, treeA: seq<int>, outB: seq<int>, pagesB: seq<nat>, treeB: seq<int>)
    requires Ideal(K)
    requires Root(K, outA, pagesA, treeA).Some? && Root(K, outB, pagesB, treeB).Some?
    requires Root(K, outA, pagesA, treeA).value.hash == Root(K, outB, pagesB, treeB).value.hash
    ensures outA == outB && pagesA == pagesB
    ensures Root(K, outA, pagesA, treeA) == Root(K, outB, pagesB, treeB)
  {
    RootIs(K, outA, pagesA, treeA);
    RootIs(K, outB, pagesB, treeB);
    var a, b := Root(K, outA, pagesA, treeA).value, Root(K, outB, pagesB, treeB).value;
    NodeBinds(K, outA, outB, a, b, 0);
    assert outA[0..|outA|] == outA && outB[0..|outB|] == outB;
  }
}
