/**
 The concurrent traversal of `update_tree`
 (src/starkware/starkware_utils/commitment_tree/update_tree.py and merkle_tree/traverse_tree.py).

 Workers take nodes from a queue and share the dictionary `updated_nodes`. A worker gives up
 control only where it awaits, so the protocol is a machine whose steps run from one await to
 the next. Its pool holds the queued nodes and the suspended workers; a step runs any one of
 them. A schedule is the sequence of tasks run.
 */
module UpdateProtocol {
  import opened Common
  import opened UpdateTree

  /** The tree and calculation classes that `update_tree` is called with. None is an exception. */
  datatype Algebra<!N, !L, !C> = Algebra(
    height: N -> nat,
    children: N -> Option<(N, N)>,
    fromNode: N -> C,
    fromFact: L -> C,
    combine: (C, C) -> Option<C>)

  datatype Node<N, L> = Node(index: nat, tree: N, update: UpdateTree<L>)

  datatype Task<N, L, C> =
    | Queued(node: Node<N, L>)                    // waiting in the queue
    | Fetching(node: Node<N, L>)                  // awaiting get_children
    | Emitting(node: Node<N, L>)                  // a right child, before it is put in the queue
    | Combining(parent: nat, left: C, right: C)   // awaiting combine

  datatype State<N(==), L(==), C(==)> = State(pool: multiset<Task<N, L, C>>, updated: map<nat, C>, failed: bool)

  /** What running a task up to its next await does: the tasks it leaves behind and the new
      dictionary; None when it raises. */
  datatype Effect<N(==), L(==), C(==)> = Raise | Effect(tasks: multiset<Task<N, L, C>>, updated: map<nat, C>)

  function Sibling(k: nat): nat
    requires k > 0
  {
    if k % 2 == 0 then k + 1 else k - 1
  }

  /** The head of the loop of `update_necessary`, with `k` just written. */
  function Ascend<N(==), L(==), C(==)>(updated: map<nat, C>, k: nat): (e: Effect<N, L, C>)
    requires k > 0 && k in updated
    ensures e.Effect? && e.updated == updated
  {
    if Sibling(k) in updated
    then Effect(multiset{Combining(k / 2, updated[2 * (k / 2)], updated[2 * (k / 2) + 1])}, updated)
    else Effect(multiset{}, updated)
  }

  function RunTask<N(==), L(==), C(==)>(alg: Algebra<N, L, C>, t: Task<N, L, C>, updated: map<nat, C>): Effect<N, L, C> {
    match t
    case Queued(n) =>
      if n.index == 0 then Raise
      else if n.update.NoUpdate? then Ascend(updated[n.index := alg.fromNode(n.tree)], n.index)
      else if alg.height(n.tree) == 0 then
        if n.update.LeafUpdate? then Ascend(updated[n.index := alg.fromFact(n.update.fact)], n.index)
        else Raise
      else if n.update.Fork? then Effect(multiset{Fetching(n)}, updated)
      else Raise
    case Fetching(n) =>
      var kids := alg.children(n.tree);
      if kids.None? || !n.update.Fork? then Raise
      else Effect(multiset{Queued(Node(2 * n.index, kids.value.0, n.update.left)),
                           Emitting(Node(2 * n.index + 1, kids.value.1, n.update.right))}, updated)
    case Emitting(n) => Effect(multiset{Queued(n)}, updated)
    case Combining(k, l, r) =>
      var c := alg.combine(l, r);
      if c.None? || k == 0 || 2 * k !in updated || 2 * k + 1 !in updated then Raise
      else Ascend(updated[k := c.value] - {2 * k, 2 * k + 1}, k)
  }

  function Step<N(==), L(==), C(==)>(alg: Algebra<N, L, C>, s: State<N, L, C>, t: Task<N, L, C>): State<N, L, C> {
    match RunTask(alg, t, s.updated)
    case Raise => s.(failed := true)
    case Effect(tasks, updated) => State(s.pool - multiset{t} + tasks, updated, s.failed)
  }

  function Init<N(==), L(==), C(==)>(tree: N, u: UpdateTree<L>): State<N, L, C> {
    State(multiset{Queued(Node(1, tree, u))}, map[], false)
  }

  /** The calculation of a subtree, by plain recursion: what the traversal should compute. */
  function Result<N, L, C>(alg: Algebra<N, L, C>, tree: N, u: UpdateTree<L>): Option<C>
    decreases u
  {
    if u.NoUpdate? then Some(alg.fromNode(tree))
    else if alg.height(tree) == 0 then
      if u.LeafUpdate? then Some(alg.fromFact(u.fact)) else None
    else if !u.Fork? || alg.children(tree).None? then None
    else
      var l := Result(alg, alg.children(tree).value.0, u.left);
      var r := Result(alg, alg.children(tree).value.1, u.right);
      if l.None? || r.None? then None else alg.combine(l.value, r.value)
  }

  // ---------------------------------------------------------------------------
  // The invariant: the state is the frontier of a cut through the update tree
  // ---------------------------------------------------------------------------

  /** How far the subtree of one node has got. */
  datatype Cut<N, L, C> =
    | Pending(task: Task<N, L, C>)
    | Done(value: C)
    | Open(left: Cut<N, L, C>, right: Cut<N, L, C>)
    | Merging(leftValue: C, rightValue: C)

  ghost function Tasks<N, L, C>(cut: Cut<N, L, C>, k: nat): multiset<Task<N, L, C>> {
    match cut
    case Pending(t) => multiset{t}
    case Done(_) => multiset{}
    case Open(l, r) => Tasks(l, 2 * k) + Tasks(r, 2 * k + 1)
    case Merging(l, r) => multiset{Combining(k, l, r)}
  }

  ghost function Entries<N, L, C>(cut: Cut<N, L, C>, k: nat): map<nat, C> {
    match cut
    case Pending(_) => map[]
    case Done(v) => map[k := v]
    case Open(l, r) => Entries(l, 2 * k) + Entries(r, 2 * k + 1)
    case Merging(l, r) => map[2 * k := l, 2 * k + 1 := r]
  }

  ghost predicate Fits<N, L, C>(alg: Algebra<N, L, C>, cut: Cut<N, L, C>, k: nat, tree: N, u: UpdateTree<L>)
    decreases cut
  {
    match cut
    case Pending(t) =>
      && !t.Combining? && t.node == Node(k, tree, u)
      && (t.Fetching? ==> u.Fork? && alg.height(tree) > 0)
    case Done(v) => Result(alg, tree, u) == Some(v)
    case Open(l, r) =>
      && u.Fork? && alg.height(tree) > 0 && alg.children(tree).Some? && !(l.Done? && r.Done?)
      && Fits(alg, l, 2 * k, alg.children(tree).value.0, u.left)
      && Fits(alg, r, 2 * k + 1, alg.children(tree).value.1, u.right)
    case Merging(l, r) =>
      && u.Fork? && alg.height(tree) > 0 && alg.children(tree).Some?
      && Result(alg, alg.children(tree).value.0, u.left) == Some(l)
      && Result(alg, alg.children(tree).value.1, u.right) == Some(r)
  }

  /** Node `j` is in the subtree of node `k`. */
  ghost predicate Below(j: nat, k: nat) {
    j == k || (j > k && Below(j / 2, k))
  }

  lemma {:induction false} BelowChild(j: nat, k: nat)
    requires k > 0
    ensures Below(j, k) && j != k <==> Below(j, 2 * k) || Below(j, 2 * k + 1)
    ensures !(Below(j, 2 * k) && Below(j, 2 * k + 1))
  {
    if j > 2 * k + 1 {
      BelowChild(j / 2, k);
    }
  }

  lemma {:induction false} BelowRoot(j: nat)
    requires j > 0
    ensures Below(j, 1)
  {
    if j > 1 { BelowRoot(j / 2); }
  }

  lemma {:induction false} EntriesBelow<N, L, C>(cut: Cut<N, L, C>, k: nat, j: nat)
    requires k > 0 && j in Entries(cut, k)
    ensures Below(j, k)
    ensures j == k ==> cut.Done?
  {
    BelowChild(j, k);
    match cut
    case Open(l, r) =>
      if j in Entries(l, 2 * k) { EntriesBelow(l, 2 * k, j); } else { EntriesBelow(r, 2 * k + 1, j); }
    case _ =>
  }

  /** Within the subtree of `k` the dictionary is that of the cut. */
  ghost predicate Agrees<N, L, C>(updated: map<nat, C>, cut: Cut<N, L, C>, k: nat) {
    forall j {:trigger j in updated} {:trigger j in Entries(cut, k)} :: Below(j, k) ==>
      && (j in updated <==> j in Entries(cut, k))
      && (j in updated ==> updated[j] == Entries(cut, k)[j])
  }

  ghost predicate SameOutside<C>(a: map<nat, C>, b: map<nat, C>, k: nat) {
    forall j {:trigger j in a} {:trigger j in b} :: !Below(j, k) ==> (j in a <==> j in b) && (j in a ==> a[j] == b[j])
  }

  lemma AgreesChildren<N, L, C>(updated: map<nat, C>, l: Cut<N, L, C>, r: Cut<N, L, C>, k: nat)
    requires k > 0
    ensures Agrees(updated, Open(l, r), k) <==>
      Agrees(updated, l, 2 * k) && Agrees(updated, r, 2 * k + 1) && k !in updated
  {
    forall j ensures
      && (j in Entries(l, 2 * k) ==> Below(j, 2 * k))
      && (j in Entries(r, 2 * k + 1) ==> Below(j, 2 * k + 1))
      && (Below(j, k) && j != k <==> Below(j, 2 * k) || Below(j, 2 * k + 1))
      && !(Below(j, 2 * k) && Below(j, 2 * k + 1))
    {
      BelowChild(j, k);
      if j in Entries(l, 2 * k) { EntriesBelow(l, 2 * k, j); }
      if j in Entries(r, 2 * k + 1) { EntriesBelow(r, 2 * k + 1, j); }
    }
    assert Below(k, k);
  }

  /** The steps a cut still needs. */
  ghost function Rank<N, L, C>(cut: Cut<N, L, C>): nat {
    match cut
    case Pending(t) =>
      (match t
       case Queued(n) => Work(n.update)
       case Fetching(n) => Work(n.update) - 1
       case Emitting(n) => Work(n.update) + 1
       case Combining(_, _, _) => 0)
    case Done(_) => 0
    case Open(l, r) => Rank(l) + Rank(r) + 1
    case Merging(_, _) => 1
  }

  ghost function Work<L>(u: UpdateTree<L>): (w: nat)
    ensures w >= 1
  {
    match u
    case Fork(l, r) => Work(l) + Work(r) + 4
    case _ => 1
  }

  /** The dictionary after a step of the subtree of `k`: inside it is that of the new cut,
      outside nothing has changed. */
  ghost predicate DictMoves<N, L, C>(cut': Cut<N, L, C>, k: nat, updated: map<nat, C>, updated': map<nat, C>) {
    Agrees(updated', cut', k) && SameOutside(updated, updated', k)
  }

  /** In `pool`, `t` has made way for `tasks`. */
  ghost predicate Moved<T>(pool: multiset<T>, pool': multiset<T>, t: T, tasks: multiset<T>) {
    t in pool && forall x {:trigger pool'[x]} :: x in pool + pool' + tasks ==>
      pool'[x] == pool[x] + tasks[x] - (if x == t then 1 else 0)
  }

  lemma MovedIs<T>(pool: multiset<T>, pool': multiset<T>, t: T, tasks: multiset<T>)
    ensures Moved(pool, pool', t, tasks) <==> t in pool && pool' == pool - multiset{t} + tasks
  {}

  lemma MovedPart<T>(part: multiset<T>, part': multiset<T>, other: multiset<T>, t: T, tasks: multiset<T>)
    requires Moved(part, part', t, tasks)
    ensures Moved(part + other, part' + other, t, tasks) && Moved(other + part, other + part', t, tasks)
  {}

  /** The tasks after a step of `t` in the subtree of `k`. If the whole subtree is now done, the
      worker goes on to look at the sibling. */
  ghost predicate TasksMove<N, L, C>(cut: Cut<N, L, C>, cut': Cut<N, L, C>, k: nat, t: Task<N, L, C>, e: Effect<N, L, C>) {
    && e.Effect?
    && (cut'.Done? ==> Tasks(cut, k) == multiset{t} && k > 0 && k in e.updated && e == Ascend(e.updated, k))
    && (!cut'.Done? ==> Moved(Tasks(cut, k), Tasks(cut', k), t, e.tasks))
  }

  /** One task of a cut is run; the cut moves on by exactly one unit of rank. */
  ghost predicate Advances<N, L, C>(
    cut: Cut<N, L, C>, cut': Cut<N, L, C>, k: nat, t: Task<N, L, C>, updated: map<nat, C>, e: Effect<N, L, C>)
  {
    && Rank(cut) == Rank(cut') + 1
    && TasksMove(cut, cut', k, t, e)
    && DictMoves(cut', k, updated, e.updated)
  }

  lemma WriteDone<N, L, C>(updated: map<nat, C>, cut: Cut<N, L, C>, k: nat, v: C)
    requires cut.Pending? && Agrees(updated, cut, k)
    ensures Agrees(updated[k := v], Cut<N, L, C>.Done(v), k) && SameOutside(updated, updated[k := v], k)
  {
    assert Below(k, k);
  }

  lemma WriteMerged<N, L, C>(updated: map<nat, C>, cut: Cut<N, L, C>, k: nat, v: C)
    requires k > 0 && cut.Merging? && Agrees(updated, cut, k)
    ensures 2 * k in updated && 2 * k + 1 in updated
    ensures var up := updated[k := v] - {2 * k, 2 * k + 1};
      Agrees(up, Cut<N, L, C>.Done(v), k) && SameOutside(updated, up, k)
  {
    BelowChild(2 * k, k);
    BelowChild(2 * k + 1, k);
    assert Below(k, k) && Below(2 * k, 2 * k) && Below(2 * k + 1, 2 * k + 1);
  }

  /** The children have been fetched: one is queued, the other about to be. */
  lemma FetchStep<N, L, C>(
    alg: Algebra<N, L, C>, cut: Cut<N, L, C>, k: nat, tree: N, u: UpdateTree<L>, updated: map<nat, C>)
    returns (cut': Cut<N, L, C>)
    requires k > 0 && cut.Pending? && cut.task.Fetching?
    requires Fits(alg, cut, k, tree, u) && Result(alg, tree, u).Some? && Agrees(updated, cut, k)
    ensures Fits(alg, cut', k, tree, u)
    ensures Advances(cut, cut', k, cut.task, updated, RunTask(alg, cut.task, updated))
  {
    var kids := alg.children(tree).value;
    var l := Node(2 * k, kids.0, u.left);
    var r := Node(2 * k + 1, kids.1, u.right);
    cut' := Open(Pending(Queued(l)), Pending(Emitting(r)));
    assert Tasks(cut', k) == multiset{Queued(l)} + multiset{Emitting(r)};
    assert Entries(cut', k) == map[];
  }

  lemma PendingStep<N, L, C>(
    alg: Algebra<N, L, C>, cut: Cut<N, L, C>, k: nat, tree: N, u: UpdateTree<L>, updated: map<nat, C>)
    returns (cut': Cut<N, L, C>)
    requires k > 0 && cut.Pending?
    requires Fits(alg, cut, k, tree, u) && Result(alg, tree, u).Some? && Agrees(updated, cut, k)
    ensures Fits(alg, cut', k, tree, u)
    ensures Advances(cut, cut', k, cut.task, updated, RunTask(alg, cut.task, updated))
  {
    match cut.task
    case Queued(n) =>
      if u.NoUpdate? || alg.height(tree) == 0 {
        var v := Result(alg, tree, u).value;
        WriteDone(updated, cut, k, v);
        cut' := Done(v);
      } else {
        cut' := Pending(Fetching(n));
      }
    case Fetching(n) =>
      cut' := FetchStep(alg, cut, k, tree, u, updated);
    case Emitting(n) =>
      cut' := Pending(Queued(n));
  }

  lemma MergingStep<N, L, C>(
    alg: Algebra<N, L, C>, cut: Cut<N, L, C>, k: nat, tree: N, u: UpdateTree<L>, t: Task<N, L, C>, updated: map<nat, C>)
    returns (cut': Cut<N, L, C>)
    requires k > 0 && cut.Merging? && t in Tasks(cut, k)
    requires Fits(alg, cut, k, tree, u) && Result(alg, tree, u).Some? && Agrees(updated, cut, k)
    ensures Fits(alg, cut', k, tree, u)
    ensures Advances(cut, cut', k, t, updated, RunTask(alg, t, updated))
  {
    var v := Result(alg, tree, u).value;
    WriteMerged(updated, cut, k, v);
    cut' := Done(v);
  }

  /** An open node once its left or right half has become `own`. */
  ghost function Reopen<N, L, C>(l: Cut<N, L, C>, r: Cut<N, L, C>, own: Cut<N, L, C>, left: bool): Cut<N, L, C> {
    var (l', r') := if left then (own, r) else (l, own);
    if l'.Done? && r'.Done? then Merging(l'.value, r'.value) else Open(l', r')
  }

  lemma LiftDict<N, L, C>(l: Cut<N, L, C>, r: Cut<N, L, C>, own: Cut<N, L, C>, left: bool, k: nat, updated: map<nat, C>, updated': map<nat, C>)
    requires k > 0 && Agrees(updated, Open(l, r), k)
    requires DictMoves(own, if left then 2 * k else 2 * k + 1, updated, updated')
    ensures DictMoves(Reopen(l, r, own, left), k, updated, updated')
    ensures Agrees(updated', if left then own else l, 2 * k)
    ensures Agrees(updated', if left then r else own, 2 * k + 1)
  {
    AgreesChildren(updated, l, r, k);
    var (l', r') := if left then (own, r) else (l, own);
    if left {
      KeepOther(updated, updated', r, 2 * k, 2 * k + 1, k);
    } else {
      KeepOther(updated, updated', l, 2 * k + 1, 2 * k, k);
    }
    AgreesChildren(updated', l', r', k);
    if l'.Done? && r'.Done? { MergingAgrees(updated', l', r', k); }
  }

  /** The worker that finishes the second of two siblings is the one that combines them. */
  lemma MeetSibling<N, L, C>(updated: map<nat, C>, l: Cut<N, L, C>, r: Cut<N, L, C>, left: bool, k: nat, e: Effect<N, L, C>)
    requires k > 0 && Agrees(updated, l, 2 * k) && Agrees(updated, r, 2 * k + 1)
    requires if left then l.Done? else r.Done?
    requires (if left then 2 * k else 2 * k + 1) in updated
    requires e == Ascend(updated, if left then 2 * k else 2 * k + 1)
    ensures e.tasks ==
      if l.Done? && r.Done? then multiset{Combining(k, l.value, r.value)} else multiset{}
  {
    SiblingDone(updated, l, 2 * k);
    SiblingDone(updated, r, 2 * k + 1);
  }

  lemma MergingAgrees<N, L, C>(updated: map<nat, C>, l: Cut<N, L, C>, r: Cut<N, L, C>, k: nat)
    requires k > 0 && l.Done? && r.Done? && Agrees(updated, Open(l, r), k)
    ensures Agrees(updated, Cut<N, L, C>.Merging(l.value, r.value), k)
  {
    assert Entries(Cut<N, L, C>.Merging(l.value, r.value), k) == Entries(Open(l, r), k);
  }

  lemma LiftTasks<N, L, C>(l: Cut<N, L, C>, r: Cut<N, L, C>, own: Cut<N, L, C>, left: bool, k: nat, t: Task<N, L, C>, tasks: multiset<Task<N, L, C>>)
    requires var (part, part') := if left then (Tasks(l, 2 * k), Tasks(own, 2 * k)) else (Tasks(r, 2 * k + 1), Tasks(own, 2 * k + 1));
      if own.Done? then part == multiset{t} else Moved(part, part', t, tasks)
    requires var (l', r') := if left then (own, r) else (l, own);
      own.Done? ==> tasks == if l'.Done? && r'.Done? then multiset{Combining(k, l'.value, r'.value)} else multiset{}
    ensures Moved(Tasks(Open(l, r), k), Tasks(Reopen(l, r, own, left), k), t, tasks)
  {
    var part, part', other := Tasks(r, 2 * k + 1), Tasks(own, 2 * k + 1), Tasks(l, 2 * k);
    if left { part, part', other := Tasks(l, 2 * k), Tasks(own, 2 * k), Tasks(r, 2 * k + 1); }
    if !own.Done? { MovedPart(part, part', other, t, tasks); }
  }

  /** What a step of one half does to its tasks. */
  lemma HalfMove<N, L, C>(cut: Cut<N, L, C>, own: Cut<N, L, C>, k: nat, t: Task<N, L, C>, e: Effect<N, L, C>)
    requires TasksMove(cut, own, k, t, e)
    ensures e.Effect? && if own.Done? then Tasks(cut, k) == multiset{t} else Moved(Tasks(cut, k), Tasks(own, k), t, e.tasks)
  {}

  lemma OpenMove<N, L, C>(cut: Cut<N, L, C>, next: Cut<N, L, C>, k: nat, t: Task<N, L, C>, e: Effect<N, L, C>)
    requires e.Effect? && !next.Done? && Moved(Tasks(cut, k), Tasks(next, k), t, e.tasks)
    ensures TasksMove(cut, next, k, t, e)
  {}

  lemma LiftRank<N, L, C>(l: Cut<N, L, C>, r: Cut<N, L, C>, own: Cut<N, L, C>, left: bool)
    requires !(l.Done? && r.Done?) && Rank(if left then l else r) == Rank(own) + 1
    ensures Rank(Open(l, r)) == Rank(Reopen(l, r, own, left)) + 1
  {}

  /** What the worker that finished one half finds of the other. */
  lemma LiftMeet<N, L, C>(l: Cut<N, L, C>, r: Cut<N, L, C>, own: Cut<N, L, C>, left: bool, k: nat, t: Task<N, L, C>, updated: map<nat, C>, e: Effect<N, L, C>)
    requires k > 0 && Agrees(updated, Open(l, r), k) && own.Done?
    requires Advances(if left then l else r, own, if left then 2 * k else 2 * k + 1, t, updated, e)
    ensures var (l', r') := if left then (own, r) else (l, own);
      e.tasks == if l'.Done? && r'.Done? then multiset{Combining(k, l'.value, r'.value)} else multiset{}
  {
    LiftDict(l, r, own, left, k, updated, e.updated);
    MeetSibling(e.updated, if left then own else l, if left then r else own, left, k, e);
  }

  /** A step of one half of an open node is a step of the node. */
  lemma LiftStep<N, L, C>(
    l: Cut<N, L, C>, r: Cut<N, L, C>, own: Cut<N, L, C>, left: bool, k: nat, t: Task<N, L, C>, updated: map<nat, C>, e: Effect<N, L, C>)
    requires k > 0 && !(l.Done? && r.Done?) && Agrees(updated, Open(l, r), k)
    requires t in (if left then Tasks(l, 2 * k) else Tasks(r, 2 * k + 1))
    requires Advances(if left then l else r, own, if left then 2 * k else 2 * k + 1, t, updated, e)
    ensures Advances(Open(l, r), Reopen(l, r, own, left), k, t, updated, e)
  {
    LiftRank(l, r, own, left);
    LiftDict(l, r, own, left, k, updated, e.updated);
    if own.Done? { LiftMeet(l, r, own, left, k, t, updated, e); }
    HalfMove(if left then l else r, own, if left then 2 * k else 2 * k + 1, t, e);
    LiftTasks(l, r, own, left, k, t, e.tasks);
    OpenMove(Open(l, r), Reopen(l, r, own, left), k, t, e);
  }

  /** A change inside the subtree of `i` leaves its sibling `j` and its parent `k` alone. */
  lemma KeepOther<N, L, C>(a: map<nat, C>, b: map<nat, C>, cut: Cut<N, L, C>, i: nat, j: nat, k: nat)
    requires k > 0 && {i, j} == {2 * k, 2 * k + 1}
    requires SameOutside(a, b, i) && Agrees(a, cut, j)
    ensures Agrees(b, cut, j) && SameOutside(a, b, k)
    ensures k in a <==> k in b
  {
    forall x ensures !(Below(x, i) && Below(x, j)) && (Below(x, i) ==> Below(x, k) && x != k) {
      BelowChild(x, k);
    }
    assert Below(k, k);
  }

  lemma SiblingDone<N, L, C>(updated: map<nat, C>, cut: Cut<N, L, C>, j: nat)
    requires j > 0 && Agrees(updated, cut, j)
    ensures j in updated <==> cut.Done?
    ensures cut.Done? ==> updated[j] == cut.value
  {
    assert Below(j, j);
    if j in Entries(cut, j) { EntriesBelow(cut, j, j); }
  }

  lemma ReopenFits<N, L, C>(alg: Algebra<N, L, C>, l: Cut<N, L, C>, r: Cut<N, L, C>, own: Cut<N, L, C>, left: bool, k: nat, tree: N, u: UpdateTree<L>)
    requires Fits(alg, Open(l, r), k, tree, u)
    requires left ==> Fits(alg, own, 2 * k, alg.children(tree).value.0, u.left)
    requires !left ==> Fits(alg, own, 2 * k + 1, alg.children(tree).value.1, u.right)
    ensures Fits(alg, Reopen(l, r, own, left), k, tree, u)
  {}

  /** The half of an open node that a task belongs to moves on. */
  lemma {:induction false} HalfStep<N, L, C>(
    alg: Algebra<N, L, C>, l: Cut<N, L, C>, r: Cut<N, L, C>, k: nat, tree: N, u: UpdateTree<L>, t: Task<N, L, C>, updated: map<nat, C>)
    returns (own: Cut<N, L, C>, left: bool)
    requires k > 0 && t in Tasks(Open(l, r), k)
    requires Fits(alg, Open(l, r), k, tree, u) && Result(alg, tree, u).Some? && Agrees(updated, Open(l, r), k)
    ensures t in (if left then Tasks(l, 2 * k) else Tasks(r, 2 * k + 1))
    ensures left ==> Fits(alg, own, 2 * k, alg.children(tree).value.0, u.left)
    ensures !left ==> Fits(alg, own, 2 * k + 1, alg.children(tree).value.1, u.right)
    ensures Advances(if left then l else r, own, if left then 2 * k else 2 * k + 1, t, updated, RunTask(alg, t, updated))
    decreases Open(l, r), 0
  {
    AgreesChildren(updated, l, r, k);
    left := t in Tasks(l, 2 * k);
    var kids := alg.children(tree).value;
    if left {
      own := CutStep(alg, l, 2 * k, kids.0, u.left, t, updated);
    } else {
      own := CutStep(alg, r, 2 * k + 1, kids.1, u.right, t, updated);
    }
  }

  /** Every step of every reachable state moves the cut on. */
  lemma {:induction false} CutStep<N, L, C>(
    alg: Algebra<N, L, C>, cut: Cut<N, L, C>, k: nat, tree: N, u: UpdateTree<L>, t: Task<N, L, C>, updated: map<nat, C>)
    returns (cut': Cut<N, L, C>)
    requires k > 0 && t in Tasks(cut, k)
    requires Fits(alg, cut, k, tree, u) && Result(alg, tree, u).Some? && Agrees(updated, cut, k)
    ensures Fits(alg, cut', k, tree, u)
    ensures Advances(cut, cut', k, t, updated, RunTask(alg, t, updated))
    decreases cut, 1
  {
    match cut
    case Pending(_) => cut' := PendingStep(alg, cut, k, tree, u, updated);
    case Merging(_, _) => cut' := MergingStep(alg, cut, k, tree, u, t, updated);
    case Open(l, r) =>
      var own, left := HalfStep(alg, l, r, k, tree, u, t, updated);
      cut' := Reopen(l, r, own, left);
      ReopenFits(alg, l, r, own, left, k, tree, u);
      LiftStep(l, r, own, left, k, t, updated, RunTask(alg, t, updated));
  }

  // ---------------------------------------------------------------------------
  // Every schedule
  // ---------------------------------------------------------------------------

  ghost predicate Frontier<N, L, C>(alg: Algebra<N, L, C>, tree: N, u: UpdateTree<L>, s: State<N, L, C>, cut: Cut<N, L, C>) {
    && !s.failed && Fits(alg, cut, 1, tree, u)
    && s.pool == Tasks(cut, 1) && s.updated == Entries(cut, 1)
  }

  lemma RootEntries<N, L, C>(cut: Cut<N, L, C>, updated: map<nat, C>)
    requires Agrees(updated, cut, 1) && 0 !in updated
    ensures updated == Entries(cut, 1)
  {
    forall j | j in updated || j in Entries(cut, 1) ensures Below(j, 1) {
      if j in updated { BelowRoot(j); } else { EntriesBelow(cut, 1, j); }
    }
  }

  lemma NoIndexZero<N, L, C>(cut: Cut<N, L, C>)
    ensures 0 !in Entries(cut, 1)
  {
    if 0 in Entries(cut, 1) { EntriesBelow(cut, 1, 0); }
  }

  lemma StepFrontier<N, L, C>(alg: Algebra<N, L, C>, tree: N, u: UpdateTree<L>, s: State<N, L, C>, cut: Cut<N, L, C>, t: Task<N, L, C>)
    returns (cut': Cut<N, L, C>)
    requires Result(alg, tree, u).Some? && Frontier(alg, tree, u, s, cut) && t in s.pool
    ensures Frontier(alg, tree, u, Step(alg, s, t), cut')
    ensures Rank(cut) == Rank(cut') + 1
  {
    cut' := CutStep(alg, cut, 1, tree, u, t, s.updated);
    RootAdvance(cut, cut', t, s.updated, RunTask(alg, t, s.updated));
  }

  lemma RootAdvance<N, L, C>(cut: Cut<N, L, C>, cut': Cut<N, L, C>, t: Task<N, L, C>, updated: map<nat, C>, e: Effect<N, L, C>)
    requires Advances(cut, cut', 1, t, updated, e) && updated == Entries(cut, 1)
    ensures e.updated == Entries(cut', 1)
    ensures Tasks(cut', 1) == Tasks(cut, 1) - multiset{t} + e.tasks
  {
    NoIndexZero(cut);
    assert !Below(0, 1) && 0 !in e.updated;
    RootEntries(cut', e.updated);
    RootTasks(cut, cut', t, e);
  }

  lemma RootTasks<N, L, C>(cut: Cut<N, L, C>, cut': Cut<N, L, C>, t: Task<N, L, C>, e: Effect<N, L, C>)
    requires TasksMove(cut, cut', 1, t, e) && 0 !in e.updated
    ensures Tasks(cut', 1) == Tasks(cut, 1) - multiset{t} + e.tasks
  {
    if cut'.Done? {
      assert e.tasks == multiset{};
    } else {
      MovedIs(Tasks(cut, 1), Tasks(cut', 1), t, e.tasks);
    }
  }

  ghost function Exec<N, L, C>(alg: Algebra<N, L, C>, s: State<N, L, C>, schedule: seq<Task<N, L, C>>): State<N, L, C>
    decreases |schedule|
  {
    if schedule == [] then s else Exec(alg, Step(alg, s, schedule[0]), schedule[1..])
  }

  /** Every task of the schedule is in the pool when its turn comes. */
  ghost predicate Legal<N, L, C>(alg: Algebra<N, L, C>, s: State<N, L, C>, schedule: seq<Task<N, L, C>>)
    decreases |schedule|
  {
    schedule != [] ==>
      schedule[0] in s.pool && Legal(alg, Step(alg, s, schedule[0]), schedule[1..])
  }

  lemma {:induction false} ExecFrontier<N, L, C>(
    alg: Algebra<N, L, C>, tree: N, u: UpdateTree<L>, s: State<N, L, C>, cut: Cut<N, L, C>, schedule: seq<Task<N, L, C>>)
    returns (cut': Cut<N, L, C>)
    requires Result(alg, tree, u).Some? && Frontier(alg, tree, u, s, cut) && Legal(alg, s, schedule)
    ensures Frontier(alg, tree, u, Exec(alg, s, schedule), cut')
    ensures Rank(cut) == Rank(cut') + |schedule|
    decreases |schedule|
  {
    if schedule == [] {
      cut' := cut;
    } else {
      cut' := StepFrontier(alg, tree, u, s, cut, schedule[0]);
      cut' := ExecFrontier(alg, tree, u, Step(alg, s, schedule[0]), cut', schedule[1..]);
    }
  }

  lemma InitFrontier<N, L, C>(alg: Algebra<N, L, C>, tree: N, u: UpdateTree<L>)
    ensures Frontier(alg, tree, u, Init(tree, u), Pending(Queued(Node(1, tree, u))))
  {}

  /** No task left means no work left, and conversely. */
  lemma {:induction false} IdleIsDone<N, L, C>(alg: Algebra<N, L, C>, cut: Cut<N, L, C>, k: nat, tree: N, u: UpdateTree<L>)
    requires Fits(alg, cut, k, tree, u)
    ensures Tasks(cut, k) == multiset{} <==> cut.Done?
    ensures Rank(cut) == 0 <==> cut.Done?
  {
    match cut
    case Open(l, r) =>
      var kids := alg.children(tree).value;
      IdleIsDone(alg, l, 2 * k, kids.0, u.left);
      IdleIsDone(alg, r, 2 * k + 1, kids.1, u.right);
      if Tasks(l, 2 * k) != multiset{} {
        var t :| t in Tasks(l, 2 * k);
        assert t in Tasks(cut, k);
      } else {
        var t :| t in Tasks(r, 2 * k + 1);
        assert t in Tasks(cut, k);
      }
    case Pending(t) => assert t in Tasks(cut, k);
    case Merging(l, r) => assert Combining(k, l, r) in Tasks(cut, k);
    case Done(_) =>
  }

  /** Main result: no schedule fails, every schedule stops after exactly `Work(u)` steps, and
      when it stops the dictionary holds one entry, at index 1: the recursive calculation. */
  lemma EverySchedule<N, L, C>(alg: Algebra<N, L, C>, tree: N, u: UpdateTree<L>, schedule: seq<Task<N, L, C>>)
    requires Result(alg, tree, u).Some?
    requires Legal(alg, Init(tree, u), schedule)
    ensures var s := Exec(alg, Init(tree, u), schedule);
      && !s.failed
      && |schedule| <= Work(u)
      && (s.pool == multiset{} <==> |schedule| == Work(u))
      && (s.pool == multiset{} ==> s.updated == map[1 := Result(alg, tree, u).value])
  {
    InitFrontier(alg, tree, u);
    var cut := ExecFrontier(alg, tree, u, Init(tree, u), Pending(Queued(Node(1, tree, u))), schedule);
    IdleIsDone(alg, cut, 1, tree, u);
  }

  // ---------------------------------------------------------------------------
  // Coverage: each leaf is accounted for exactly once in every reachable state
  // ---------------------------------------------------------------------------

  /** Who answers for a leaf: a finished subtree, or a task still to be run. */
  datatype Owner<N, L, C> = Entry(index: nat) | Holder(task: Task<N, L, C>)

  ghost predicate Owns<N, L, C>(pool: multiset<Task<N, L, C>>, updated: map<nat, C>, o: Owner<N, L, C>, x: nat) {
    match o
    case Entry(j) => j in updated && Below(x, j)
    case Holder(t) => t in pool && !t.Combining? && Below(x, t.node.index)
  }

  ghost predicate ProperHeights<N(!new), L, C>(alg: Algebra<N, L, C>) {
    forall t: N :: alg.children(t).Some? ==>
      && alg.height(t) > 0
      && alg.height(alg.children(t).value.0) == alg.height(t) - 1
      && alg.height(alg.children(t).value.1) == alg.height(t) - 1
  }

  lemma {:induction false} BelowTrans(x: nat, j: nat, k: nat)
    requires Below(x, j) && Below(j, k)
    ensures Below(x, k)
  {
    if x != j { BelowTrans(x / 2, j, k); }
  }

  lemma {:induction false} AboveBelow(x: nat, h: nat)
    requires Above(x, h) > 0
    ensures Below(x, Above(x, h))
  {
    if h > 0 {
      AboveBelow(x, h - 1);
      assert Below(Above(x, h - 1), Above(x, h));
      BelowTrans(x, Above(x, h - 1), Above(x, h));
    }
  }

  lemma {:induction false} TasksBelow<N, L, C>(alg: Algebra<N, L, C>, cut: Cut<N, L, C>, k: nat, tree: N, u: UpdateTree<L>, t: Task<N, L, C>)
    requires k > 0 && Fits(alg, cut, k, tree, u) && t in Tasks(cut, k)
    ensures Below(if t.Combining? then t.parent else t.node.index, k)
  {
    match cut
    case Open(l, r) =>
      var i := if t.Combining? then t.parent else t.node.index;
      if t in Tasks(l, 2 * k) {
        TasksBelow(alg, l, 2 * k, alg.children(tree).value.0, u.left, t);
      } else {
        TasksBelow(alg, r, 2 * k + 1, alg.children(tree).value.1, u.right, t);
      }
      BelowChild(i, k);
    case _ =>
  }

  /** An owner of `x` in one half of an open node is in the half that `x` is in. */
  lemma OwnerHalf<N, L, C>(alg: Algebra<N, L, C>, cut: Cut<N, L, C>, k: nat, tree: N, u: UpdateTree<L>, o: Owner<N, L, C>, x: nat)
    requires k > 0 && Fits(alg, cut, k, tree, u) && Owns(Tasks(cut, k), Entries(cut, k), o, x)
    ensures Below(x, k)
  {
    match o
    case Entry(j) => EntriesBelow(cut, k, j); BelowTrans(x, j, k);
    case Holder(t) => TasksBelow(alg, cut, k, tree, u, t); BelowTrans(x, t.node.index, k);
  }

  ghost predicate OnlyOwner<N(!new), L(!new), C(!new)>(pool: multiset<Task<N, L, C>>, updated: map<nat, C>, o: Owner<N, L, C>, x: nat) {
    && Owns(pool, updated, o, x)
    && (forall o' :: Owns(pool, updated, o', x) ==> o' == o)
    && (o.Holder? ==> pool[o.task] == 1)
  }

  /** Tasks and entries that do not own `x` do not change its only owner. */
  lemma AddStrangers<N(!new), L(!new), C(!new)>(
    pool: multiset<Task<N, L, C>>, es: map<nat, C>, more: multiset<Task<N, L, C>>, fs: map<nat, C>, o: Owner<N, L, C>, x: nat)
    requires OnlyOwner(pool, es, o, x) && forall o' :: !Owns(more, fs, o', x)
    ensures OnlyOwner(pool + more, es + fs, o, x) && OnlyOwner(more + pool, fs + es, o, x)
  {
    forall o' ensures Owns(pool + more, es + fs, o', x) <==> Owns(pool, es, o', x) { assert !Owns(more, fs, o', x); }
    forall o' ensures Owns(more + pool, fs + es, o', x) <==> Owns(pool, es, o', x) { assert !Owns(more, fs, o', x); }
    assert !Owns(more, fs, o, x);
  }

  lemma NoOwner<N(!new), L(!new), C(!new)>(alg: Algebra<N, L, C>, cut: Cut<N, L, C>, k: nat, tree: N, u: UpdateTree<L>, x: nat)
    requires k > 0 && Fits(alg, cut, k, tree, u) && !Below(x, k)
    ensures forall o' :: !Owns(Tasks(cut, k), Entries(cut, k), o', x)
  {
    forall o' ensures !Owns(Tasks(cut, k), Entries(cut, k), o', x) {
      if Owns(Tasks(cut, k), Entries(cut, k), o', x) { OwnerHalf(alg, cut, k, tree, u, o', x); }
    }
  }

  /** The only owner in one half of an open node is the only owner in the node. */
  lemma OwnerOfOpen<N(!new), L(!new), C(!new)>(
    alg: Algebra<N, L, C>, l: Cut<N, L, C>, r: Cut<N, L, C>, k: nat, tree: N, u: UpdateTree<L>, o: Owner<N, L, C>, x: nat, left: bool)
    requires k > 0 && Fits(alg, Open(l, r), k, tree, u)
    requires Below(x, if left then 2 * k else 2 * k + 1)
    requires left ==> OnlyOwner(Tasks(l, 2 * k), Entries(l, 2 * k), o, x)
    requires !left ==> OnlyOwner(Tasks(r, 2 * k + 1), Entries(r, 2 * k + 1), o, x)
    ensures OnlyOwner(Tasks(Open(l, r), k), Entries(Open(l, r), k), o, x)
  {
    BelowChild(x, k);
    var kids := alg.children(tree).value;
    if left {
      NoOwner(alg, r, 2 * k + 1, kids.1, u.right, x);
      AddStrangers(Tasks(l, 2 * k), Entries(l, 2 * k), Tasks(r, 2 * k + 1), Entries(r, 2 * k + 1), o, x);
    } else {
      NoOwner(alg, l, 2 * k, kids.0, u.left, x);
      AddStrangers(Tasks(r, 2 * k + 1), Entries(r, 2 * k + 1), Tasks(l, 2 * k), Entries(l, 2 * k), o, x);
    }
  }

  lemma {:induction false} OneOwnerBelow<N(!new), L(!new), C(!new)>(
    alg: Algebra<N, L, C>, cut: Cut<N, L, C>, k: nat, tree: N, u: UpdateTree<L>, x: nat)
    returns (o: Owner<N, L, C>)
    requires ProperHeights(alg) && k > 0 && Fits(alg, cut, k, tree, u) && Above(x, alg.height(tree)) == k
    ensures OnlyOwner(Tasks(cut, k), Entries(cut, k), o, x)
    decreases cut, 1
  {
    var h := alg.height(tree);
    AboveBelow(x, h);
    match cut
    case Pending(t) => o := Holder(t);
    case Done(_) => o := Entry(k);
    case Merging(_, _) =>
      AboveBelow(x, h - 1);
      BelowChild(x, k);
      o := Entry(Above(x, h - 1));
    case Open(l, r) =>
      o := OneOwnerOfOpen(alg, l, r, k, tree, u, x);
  }

  lemma {:induction false} OneOwnerOfOpen<N(!new), L(!new), C(!new)>(
    alg: Algebra<N, L, C>, l: Cut<N, L, C>, r: Cut<N, L, C>, k: nat, tree: N, u: UpdateTree<L>, x: nat)
    returns (o: Owner<N, L, C>)
    requires ProperHeights(alg) && k > 0 && Fits(alg, Open(l, r), k, tree, u) && Above(x, alg.height(tree)) == k
    ensures OnlyOwner(Tasks(Open(l, r), k), Entries(Open(l, r), k), o, x)
    decreases Open(l, r), 0
  {
    var h, kids := alg.height(tree), alg.children(tree).value;
    AboveBelow(x, h - 1);
    var left := Above(x, h - 1) == 2 * k;
    if left {
      o := OneOwnerBelow(alg, l, 2 * k, kids.0, u.left, x);
    } else {
      o := OneOwnerBelow(alg, r, 2 * k + 1, kids.1, u.right, x);
    }
    OwnerOfOpen(alg, l, r, k, tree, u, o, x, left);
  }

  /** In every reachable state every leaf of the tree has exactly one owner. */
  lemma LeavesCoveredOnce<N(!new), L(!new), C(!new)>(
    alg: Algebra<N, L, C>, tree: N, u: UpdateTree<L>, schedule: seq<Task<N, L, C>>, x: nat)
    returns (o: Owner<N, L, C>)
    requires ProperHeights(alg) && Result(alg, tree, u).Some? && Legal(alg, Init(tree, u), schedule)
    requires Pow2(alg.height(tree)) <= x < Pow2(alg.height(tree) + 1)
    ensures var s := Exec(alg, Init(tree, u), schedule); OnlyOwner(s.pool, s.updated, o, x)
  {
    InitFrontier(alg, tree, u);
    var cut := ExecFrontier(alg, tree, u, Init(tree, u), Pending(Queued(Node(1, tree, u))), schedule);
    AboveIsDiv(x, alg.height(tree));
    DivUnique(x, Pow2(alg.height(tree)), 1, x - Pow2(alg.height(tree)));
    o := OneOwnerBelow(alg, cut, 1, tree, u, x);
  }

  /** Both children of `j` are finished exactly while one worker is combining their values. */
  ghost predicate PairIsCombined<N(!new), L(!new), C(!new)>(pool: multiset<Task<N, L, C>>, updated: map<nat, C>, j: nat) {
    && (2 * j in updated && 2 * j + 1 in updated ==> pool[Combining(j, updated[2 * j], updated[2 * j + 1])] == 1)
    && (forall l, r :: Combining(j, l, r) in pool ==>
          2 * j in updated && 2 * j + 1 in updated && l == updated[2 * j] && r == updated[2 * j + 1])
  }

  /** The half of an open node `k` in which a child `i` of `j` can have an entry. */
  lemma EntryHalf<N, L, C>(l: Cut<N, L, C>, r: Cut<N, L, C>, k: nat, j: nat, i: nat)
    requires k > 0 && j > 0 && Below(j, k) && i / 2 == j
    ensures i in Entries(l, 2 * k) ==> (if j == k then i == 2 * k && l.Done? else Below(j, 2 * k))
    ensures i in Entries(r, 2 * k + 1) ==> (if j == k then i == 2 * k + 1 && r.Done? else Below(j, 2 * k + 1))
  {
    BelowChild(j, k);
    BelowChild(i, k);
    assert Below(i, j);
    if i in Entries(l, 2 * k) {
      EntriesBelow(l, 2 * k, i);
    }
    if i in Entries(r, 2 * k + 1) {
      EntriesBelow(r, 2 * k + 1, i);
    }
  }

  lemma TaskHalf<N, L, C>(alg: Algebra<N, L, C>, l: Cut<N, L, C>, r: Cut<N, L, C>, k: nat, tree: N, u: UpdateTree<L>, t: Task<N, L, C>)
    requires k > 0 && Fits(alg, Open(l, r), k, tree, u) && t.Combining?
    ensures t in Tasks(l, 2 * k) ==> Below(t.parent, 2 * k)
    ensures t in Tasks(r, 2 * k + 1) ==> Below(t.parent, 2 * k + 1)
  {
    if t in Tasks(l, 2 * k) { TasksBelow(alg, l, 2 * k, alg.children(tree).value.0, u.left, t); }
    if t in Tasks(r, 2 * k + 1) { TasksBelow(alg, r, 2 * k + 1, alg.children(tree).value.1, u.right, t); }
  }

  /** Tasks and entries that do not concern the children of `j` do not change how they are combined. */
  lemma AddApart<N(!new), L(!new), C(!new)>(pool: multiset<Task<N, L, C>>, es: map<nat, C>, more: multiset<Task<N, L, C>>, fs: map<nat, C>, j: nat)
    requires PairIsCombined(pool, es, j) && 2 * j !in fs && 2 * j + 1 !in fs
    requires forall a, b :: Combining(j, a, b) !in more
    ensures PairIsCombined(pool + more, es + fs, j) && PairIsCombined(more + pool, fs + es, j)
  {
    assert forall a, b :: Combining(j, a, b) in pool + more ==> Combining(j, a, b) in pool;
    assert forall a, b :: Combining(j, a, b) in more + pool ==> Combining(j, a, b) in pool;
  }

  /** A half that node `j` is not in has nothing of its children, but for a finished half below `j` itself. */
  lemma ApartHalf<N(!new), L(!new), C(!new)>(alg: Algebra<N, L, C>, l: Cut<N, L, C>, r: Cut<N, L, C>, k: nat, tree: N, u: UpdateTree<L>, j: nat, left: bool)
    requires k > 0 && j > 0 && Fits(alg, Open(l, r), k, tree, u) && Below(j, k)
    requires !Below(j, if left then 2 * k else 2 * k + 1)
    ensures forall a, b :: Combining(j, a, b) !in (if left then Tasks(l, 2 * k) else Tasks(r, 2 * k + 1))
    ensures var es := if left then Entries(l, 2 * k) else Entries(r, 2 * k + 1);
      (2 * j in es ==> j == k && left && l.Done?) && (2 * j + 1 in es ==> j == k && !left && r.Done?)
  {
    forall a, b ensures Combining(j, a, b) !in (if left then Tasks(l, 2 * k) else Tasks(r, 2 * k + 1)) {
      TaskHalf(alg, l, r, k, tree, u, Combining(j, a, b));
    }
    EntryHalf(l, r, k, j, 2 * j);
    EntryHalf(l, r, k, j, 2 * j + 1);
  }

  lemma OpenPair<N(!new), L(!new), C(!new)>(alg: Algebra<N, L, C>, l: Cut<N, L, C>, r: Cut<N, L, C>, k: nat, tree: N, u: UpdateTree<L>, j: nat)
    requires k > 0 && j > 0 && Fits(alg, Open(l, r), k, tree, u) && Below(j, k)
    requires Below(j, 2 * k) ==> PairIsCombined(Tasks(l, 2 * k), Entries(l, 2 * k), j)
    requires Below(j, 2 * k + 1) ==> PairIsCombined(Tasks(r, 2 * k + 1), Entries(r, 2 * k + 1), j)
    ensures PairIsCombined(Tasks(Open(l, r), k), Entries(Open(l, r), k), j)
  {
    BelowChild(j, k);
    if !Below(j, 2 * k) { ApartHalf(alg, l, r, k, tree, u, j, true); }
    if !Below(j, 2 * k + 1) { ApartHalf(alg, l, r, k, tree, u, j, false); }
    if Below(j, 2 * k) {
      AddApart(Tasks(l, 2 * k), Entries(l, 2 * k), Tasks(r, 2 * k + 1), Entries(r, 2 * k + 1), j);
    } else if Below(j, 2 * k + 1) {
      AddApart(Tasks(r, 2 * k + 1), Entries(r, 2 * k + 1), Tasks(l, 2 * k), Entries(l, 2 * k), j);
    }
  }

  lemma {:induction false} PairBelow<N(!new), L(!new), C(!new)>(alg: Algebra<N, L, C>, cut: Cut<N, L, C>, k: nat, tree: N, u: UpdateTree<L>, j: nat)
    requires k > 0 && j > 0 && Fits(alg, cut, k, tree, u) && Below(j, k)
    ensures PairIsCombined(Tasks(cut, k), Entries(cut, k), j)
    decreases cut
  {
    match cut
    case Open(l, r) =>
      if Below(j, 2 * k) { PairBelow(alg, l, 2 * k, alg.children(tree).value.0, u.left, j); }
      if Below(j, 2 * k + 1) { PairBelow(alg, r, 2 * k + 1, alg.children(tree).value.1, u.right, j); }
      OpenPair(alg, l, r, k, tree, u, j);
    case _ =>
  }

  /** In every reachable state two finished siblings are present together exactly while one
      worker is combining these two values: no combination is lost and none is run twice. */
  lemma SiblingsCombinedOnce<N(!new), L(!new), C(!new)>(
    alg: Algebra<N, L, C>, tree: N, u: UpdateTree<L>, schedule: seq<Task<N, L, C>>, j: nat)
    requires Result(alg, tree, u).Some? && Legal(alg, Init(tree, u), schedule) && j > 0
    ensures var s := Exec(alg, Init(tree, u), schedule); PairIsCombined(s.pool, s.updated, j)
  {
    InitFrontier(alg, tree, u);
    var cut := ExecFrontier(alg, tree, u, Init(tree, u), Pending(Queued(Node(1, tree, u))), schedule);
    BelowRoot(j);
    PairBelow(alg, cut, 1, tree, u, j);
  }

  /** The traversal with an arbitrary scheduler: `:|` picks any task of the pool. */
  method Traverse<N(==), L(==), C(==)>(alg: Algebra<N, L, C>, tree: N, u: UpdateTree<L>) returns (s: State<N, L, C>)
    requires Result(alg, tree, u).Some?
    ensures !s.failed
    ensures s.updated == map[1 := Result(alg, tree, u).value]
  {
    s := Init(tree, u);
    ghost var cut: Cut<N, L, C> := Pending(Queued(Node(1, tree, u)));
    InitFrontier(alg, tree, u);
    while s.pool != multiset{}
      invariant Frontier(alg, tree, u, s, cut)
      decreases Rank(cut)
    {
      var t :| t in s.pool;
      cut := StepFrontier(alg, tree, u, s, cut, t);
      s := Step(alg, s, t);
    }
    IdleIsDone(alg, cut, 1, tree, u);
  }
}
