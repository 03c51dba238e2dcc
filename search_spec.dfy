/** What one call of `pathTo` computes, as functions. `Run` is the expansion
    loop: it pops a node by the fringe's discipline, goal-tests it, skips it at
    the depth bound, and otherwise pushes the successors that `Successors`
    accepts. The engine's methods are proved equal to these functions. */
module SearchSpec {
  import opened Wrappers
  import opened Algorithms
  import opened Nodes
  import opened Fringes

  /** The two usage errors that the source reports with IllegalArgumentException. */
  datatype UsageError = AlgorithmNotApplicable | TooManyHeuristics

  /** What the engine holds (root node and move list) together with the goal
      predicate of one call. */
  datatype Problem<!T> = Problem(root: Node<T>, moves: seq<Move<T>>, goal: T -> bool)

  /** The fixed parameters of one expansion loop. */
  datatype Query<!T> = Query(goal: T -> bool, moves: seq<Move<T>>, algorithm: Algorithm, maxDepth: int, heuristic: T -> int)

  /** What one expansion produces: the nodes pushed, in order, and the
      duplicate set afterwards. */
  datatype Expansion<!T> = Expansion(kids: seq<Node<T>>, seen: set<T>)

  /** The heuristic actually used: the one supplied, or the constant 0. */
  function DefaultHeuristic<T>(heuristics: seq<T -> int>): (h: T -> int)
    ensures |heuristics| == 1 ==> h == heuristics[0]
    ensures |heuristics| != 1 ==> h == ((s: T) => 0)
  {
    if |heuristics| == 1 then heuristics[0] else (s: T) => 0
  }

  function QueryOf<T>(p: Problem<T>, algorithm: Algorithm, maxDepth: int, heuristics: seq<T -> int>): Query<T>
  {
    Query(p.goal, p.moves, algorithm, maxDepth, DefaultHeuristic(heuristics))
  }

  /** The cost a child node gets. Costs are not accumulated along the path. */
  function ChildCost<T>(a: Algorithm, m: Move<T>, h: T -> int, s: T): (c: int)
    ensures a.Recognised() && !a.Informed() ==> c == m.cost
    ensures a == GS ==> c == h(s)
    ensures a == AStar ==> c == m.cost + h(s)
  {
    match a
    case GS => h(s)
    case AStar => m.cost + h(s)
    case Unrecognised => 0
    case _ => m.cost
  }

  /** The node pushed for successor state `s`, reached from `parent` by `m`. */
  function Child<T>(q: Query<T>, parent: Node<T>, m: Move<T>, s: T): (c: Node<T>)
    ensures m.transition(parent.state) == Some(s) ==> IsChild(q, parent, c)
    ensures m in q.moves && m.transition(parent.state) == Some(s) ==> Step(q, parent, c)
  {
    Node(s, Some(parent), Some(m), ChildCost(q.algorithm, m, q.heuristic, s), parent.depth + 1)
  }

  /** `c` is a child that the engine builds from `p`. */
  ghost predicate IsChild<T>(q: Query<T>, p: Node<T>, c: Node<T>) {
    && c.parent == Some(p)
    && c.move.Some?
    && c.move.value.transition(p.state) == Some(c.state)
    && c.cost == ChildCost(q.algorithm, c.move.value, q.heuristic, c.state)
    && c.depth == p.depth + 1
  }

  /** One step of a path: a child built by a move of the move list. */
  ghost predicate Step<T>(q: Query<T>, p: Node<T>, c: Node<T>) {
    IsChild(q, p, c) && c.move.value in q.moves
  }

  /** `n`'s parent chain is made of steps and ends at `root`. */
  ghost predicate InTree<T>(q: Query<T>, root: Node<T>, n: Node<T>)
    decreases n
  {
    match n.parent
    case None => n == root
    case Some(p) => Step(q, p, n) && InTree(q, root, p)
  }

  function DepthCap(maxDepth: int): nat {
    if maxDepth < 0 then 0 else maxDepth
  }

  /** Every node of `path` is a child of the one before it. */
  ghost predicate IsChain<T>(q: Query<T>, path: seq<Node<T>>) {
    forall i :: 0 <= i < |path| - 1 ==> Step(q, path[i], path[i + 1])
  }

  /** A path that `pathTo` may return: it starts at the root, every node is a
      child of the one before, the last state satisfies the goal, and there are
      no more nodes than the depth bound allows. */
  ghost predicate IsSolution<T>(q: Query<T>, root: Node<T>, path: seq<Node<T>>) {
    && |path| >= 1
    && path[0] == root
    && q.goal(path[|path| - 1].state)
    && |path| <= DepthCap(q.maxDepth) + 1
    && IsChain(q, path)
  }

  /** No two nodes of `kids` share a state. */
  ghost predicate DistinctStates<T>(kids: seq<Node<T>>) {
    forall i, j :: 0 <= i < j < |kids| ==> kids[i].state != kids[j].state
  }

  ghost function StatesOf<T>(kids: seq<Node<T>>): set<T> {
    set k | k in kids :: k.state
  }

  /** The inner loop of the expansion: for each move in order, apply it to the
      parent's state, drop a `None` result or a state already seen, and
      otherwise record the state as seen and push a child. */
  function Successors<T(==)>(q: Query<T>, parent: Node<T>, moves: seq<Move<T>>, seen: set<T>): (e: Expansion<T>)
    ensures seen <= e.seen && |e.kids| <= |moves|
    ensures forall k :: k in e.kids ==> k.parent == Some(parent) && k.depth == parent.depth + 1
    decreases |moves|
  {
    if |moves| == 0 then Expansion([], seen)
    else
      var m := moves[0];
      match m.transition(parent.state)
      case None => Successors(q, parent, moves[1..], seen)
      case Some(s) =>
        if s in seen then Successors(q, parent, moves[1..], seen)
        else
          var e := Successors(q, parent, moves[1..], seen + {s});
          Expansion([Child(q, parent, m, s)] + e.kids, e.seen)
  }

  /** The duplicate set only grows, by exactly the states of the children
      pushed, and no more children are pushed than there are moves. */
  lemma {:induction false} SuccessorsSeen<T>(q: Query<T>, parent: Node<T>, moves: seq<Move<T>>, seen: set<T>)
    ensures var e := Successors(q, parent, moves, seen);
            e.seen == seen + StatesOf(e.kids) && |e.kids| <= |moves|
    decreases |moves|
  {
    if |moves| > 0 {
      match moves[0].transition(parent.state)
      case None =>
        SuccessorsSeen(q, parent, moves[1..], seen);
      case Some(s) =>
        if s in seen {
          SuccessorsSeen(q, parent, moves[1..], seen);
        } else {
          var e := Successors(q, parent, moves[1..], seen + {s});
          SuccessorsSeen(q, parent, moves[1..], seen + {s});
          assert StatesOf([Child(q, parent, moves[0], s)] + e.kids) == {s} + StatesOf(e.kids);
        }
    }
  }

  /** Every pushed node is a child of `parent` by one of `moves`, with a state
      that was not in the duplicate set. */
  lemma {:induction false} SuccessorsAreFreshChildren<T>(q: Query<T>, parent: Node<T>, moves: seq<Move<T>>, seen: set<T>)
    ensures forall k :: k in Successors(q, parent, moves, seen).kids ==>
              k.state !in seen && IsChild(q, parent, k) && k.move.value in moves
    decreases |moves|
  {
    if |moves| > 0 {
      assert forall x :: x in moves[1..] ==> x in moves;
      match moves[0].transition(parent.state)
      case None =>
        SuccessorsAreFreshChildren(q, parent, moves[1..], seen);
      case Some(s) =>
        if s in seen {
          SuccessorsAreFreshChildren(q, parent, moves[1..], seen);
        } else {
          SuccessorsAreFreshChildren(q, parent, moves[1..], seen + {s});
        }
    }
  }

  /** No two children pushed by one expansion share a state. */
  lemma {:induction false} SuccessorsDistinct<T>(q: Query<T>, parent: Node<T>, moves: seq<Move<T>>, seen: set<T>)
    ensures DistinctStates(Successors(q, parent, moves, seen).kids)
    decreases |moves|
  {
    if |moves| > 0 {
      match moves[0].transition(parent.state)
      case None =>
        assert Successors(q, parent, moves, seen) == Successors(q, parent, moves[1..], seen);
        SuccessorsDistinct(q, parent, moves[1..], seen);
      case Some(s) =>
        if s in seen {
          assert Successors(q, parent, moves, seen) == Successors(q, parent, moves[1..], seen);
          SuccessorsDistinct(q, parent, moves[1..], seen);
        } else {
          var e := Successors(q, parent, moves[1..], seen + {s});
          assert Successors(q, parent, moves, seen).kids == [Child(q, parent, moves[0], s)] + e.kids;
          SuccessorsDistinct(q, parent, moves[1..], seen + {s});
          SuccessorsAreFreshChildren(q, parent, moves[1..], seen + {s});
          var kids := [Child(q, parent, moves[0], s)] + e.kids;
          forall i, j | 0 <= i < j < |kids|
            ensures kids[i].state != kids[j].state
          {
            if i == 0 {
              assert kids[j] == e.kids[j - 1];
              assert kids[j] in e.kids;
              assert kids[j].state !in seen + {s};
              assert kids[0].state == s;
            } else {
              assert kids[i] == e.kids[i - 1] && kids[j] == e.kids[j - 1];
            }
          }
        }
    }
  }

  /** Every state that some move reaches from `parent` is in the duplicate set
      afterwards, whether it was pushed now or seen before. */
  lemma {:induction false} SuccessorsCover<T>(q: Query<T>, parent: Node<T>, moves: seq<Move<T>>, seen: set<T>)
    ensures var e := Successors(q, parent, moves, seen);
            seen <= e.seen &&
            forall m :: m in moves && m.transition(parent.state).Some? ==> m.transition(parent.state).value in e.seen
    decreases |moves|
  {
    if |moves| > 0 {
      assert forall x :: x in moves ==> x == moves[0] || x in moves[1..];
      match moves[0].transition(parent.state)
      case None =>
        SuccessorsCover(q, parent, moves[1..], seen);
      case Some(s) =>
        if s in seen {
          SuccessorsCover(q, parent, moves[1..], seen);
        } else {
          SuccessorsCover(q, parent, moves[1..], seen + {s});
        }
    }
  }

  /** `b` to the power `e`. */
  function Pow(b: nat, e: nat): (r: nat)
    ensures b >= 1 ==> r >= 1
  {
    if e == 0 then 1 else b * Pow(b, e - 1)
  }

  /** A node's share of the termination measure: `|moves| + 1` to the power of
      the levels left between it and the depth bound, or 1 past the bound. */
  ghost function Weight<T>(q: Query<T>, n: Node<T>): (w: nat)
    ensures w >= 1
  {
    var cap := DepthCap(q.maxDepth);
    if n.depth <= cap then Pow(|q.moves| + 1, cap - n.depth) else 1
  }

  /** The termination measure of the loop: the weights of the pending nodes. */
  ghost function FringeWeight<T>(q: Query<T>, items: seq<Node<T>>): nat
    decreases |items|
  {
    if |items| == 0 then 0 else Weight(q, items[0]) + FringeWeight(q, items[1..])
  }

  lemma {:induction false} FringeWeightAppend<T>(q: Query<T>, a: seq<Node<T>>, b: seq<Node<T>>)
    ensures FringeWeight(q, a + b) == FringeWeight(q, a) + FringeWeight(q, b)
    decreases |a|
  {
    if |a| == 0 {
      assert a + b == b;
    } else {
      assert (a + b)[0] == a[0] && (a + b)[1..] == a[1..] + b;
      FringeWeightAppend(q, a[1..], b);
    }
  }

  /** `a` nodes of weight `w` weigh `a * w`: no more than `b` such nodes do
      when `a <= b`, and one node more adds exactly `w`. */
  lemma CountTimesWeight(a: nat, b: nat, w: nat)
    requires a <= b
    ensures a * w <= b * w
    ensures b == a + 1 ==> b * w == a * w + w
  {
  }

  /** Nodes one level below a node `n` under the bound weigh `Weight(n)` split
      `|moves| + 1` ways, so at most `|moves|` of them weigh less than `n`. */
  lemma {:induction false} SiblingsWeight<T>(q: Query<T>, d: int, kids: seq<Node<T>>)
    requires d < q.maxDepth && forall k :: k in kids ==> k.depth == d + 1
    ensures FringeWeight(q, kids) == |kids| * Pow(|q.moves| + 1, DepthCap(q.maxDepth) - d - 1)
    decreases |kids|
  {
    if |kids| > 0 {
      var w := Pow(|q.moves| + 1, DepthCap(q.maxDepth) - d - 1);
      assert forall k :: k in kids[1..] ==> k in kids;
      SiblingsWeight(q, d, kids[1..]);
      assert kids[0] in kids;
      assert Weight(q, kids[0]) == w;
      CountTimesWeight(|kids| - 1, |kids|, w);
    }
  }

  /** Popping the `k`-th node takes exactly its weight off the fringe. */
  lemma PopWeight<T>(q: Query<T>, items: seq<Node<T>>, k: nat)
    requires k < |items|
    ensures FringeWeight(q, items) == FringeWeight(q, Remove(items, k)) + Weight(q, items[k])
  {
    var n := items[k];
    assert items == items[..k] + [n] + items[k + 1..];
    assert [n][1..] == [];
    FringeWeightAppend(q, items[..k] + [n], items[k + 1..]);
    FringeWeightAppend(q, items[..k], [n]);
    FringeWeightAppend(q, items[..k], items[k + 1..]);
  }

  /** The children of a node below the depth bound weigh less than it. */
  lemma ChildrenWeight<T>(q: Query<T>, n: Node<T>, seen: set<T>)
    requires n.depth < q.maxDepth
    ensures FringeWeight(q, Successors(q, n, q.moves, seen).kids) < Weight(q, n)
  {
    var kids := Successors(q, n, q.moves, seen).kids;
    var m := |q.moves| + 1;
    var w := Pow(m, DepthCap(q.maxDepth) - n.depth - 1);
    SiblingsWeight(q, n.depth, kids);
    assert Weight(q, n) == m * w;
    CountTimesWeight(|kids|, m - 1, w);
    CountTimesWeight(m - 1, m, w);
  }

  /** One round of the loop makes the measure smaller: the popped node leaves,
      and when it is expanded (below the depth bound) its children weigh less
      than it did. This is why `pathTo` stops for every `maxDepth`, whether or
      not the state space is finite. */
  lemma StepShrinks<T>(q: Query<T>, items: seq<Node<T>>, k: nat, seen: set<T>)
    requires k < |items|
    ensures FringeWeight(q, Remove(items, k)) < FringeWeight(q, items)
    ensures items[k].depth < q.maxDepth ==>
              FringeWeight(q, Remove(items, k) + Successors(q, items[k], q.moves, seen).kids) < FringeWeight(q, items)
  {
    PopWeight(q, items, k);
    if items[k].depth < q.maxDepth {
      ChildrenWeight(q, items[k], seen);
      FringeWeightAppend(q, Remove(items, k), Successors(q, items[k], q.moves, seen).kids);
    }
  }

  /** The expansion loop of one call, from a fringe `items` and a duplicate set
      `seen`: the path it returns, or `[]` once the fringe is exhausted. A path
      it returns starts at a parentless node and ends at a goal state. */
  ghost function Run<T>(q: Query<T>, items: seq<Node<T>>, seen: set<T>): (path: seq<Node<T>>)
    requires q.algorithm.Recognised()
    ensures |path| > 0 ==> path[0].parent.None? && q.goal(path[|path| - 1].state)
    decreases FringeWeight(q, items)
  {
    if |items| == 0 then []
    else
      var k := PopIndex(DisciplineOf(q.algorithm), items);
      var n := items[k];
      var rest := Remove(items, k);
      StepShrinks(q, items, k, seen);
      if q.goal(n.state) then Ancestry(n)
      else if n.depth >= q.maxDepth then Run(q, rest, seen)
      else
        var e := Successors(q, n, q.moves, seen);
        Run(q, rest + e.kids, e.seen)
  }

  /** Everything the same loop pushes, in push order, and the duplicate set it
      ends with. The duplicate set only grows. */
  ghost function Pushed<T>(q: Query<T>, items: seq<Node<T>>, seen: set<T>): (x: Expansion<T>)
    requires q.algorithm.Recognised()
    ensures seen <= x.seen
    decreases FringeWeight(q, items)
  {
    if |items| == 0 then Expansion([], seen)
    else
      var k := PopIndex(DisciplineOf(q.algorithm), items);
      var n := items[k];
      var rest := Remove(items, k);
      StepShrinks(q, items, k, seen);
      if q.goal(n.state) then Expansion([], seen)
      else if n.depth >= q.maxDepth then Pushed(q, rest, seen)
      else
        var e := Successors(q, n, q.moves, seen);
        SuccessorsCover(q, n, q.moves, seen);
        var later := Pushed(q, rest + e.kids, e.seen);
        Expansion(e.kids + later.kids, later.seen)
  }

  /** One non-iterative search: the heuristic-count check, then the loop
      seeded with the root and an empty duplicate set. */
  ghost function SearchOnce<T>(p: Problem<T>, algorithm: Algorithm, maxDepth: int, heuristics: seq<T -> int>)
    : (r: Result<seq<Node<T>>, UsageError>)
    requires algorithm.Recognised()
    ensures r.Err? <==> |heuristics| > 1
    ensures r.Err? ==> r.error == TooManyHeuristics
    ensures r.Ok? && |r.value| > 0 ==> p.goal(r.value[|r.value| - 1].state)
  {
    if |heuristics| > 1 then Err(TooManyHeuristics)
    else Ok(Run(QueryOf(p, algorithm, maxDepth, heuristics), [p.root], {}))
  }

  /** Iterative deepening from depth limit `limit` up to `maxDepth`: the first
      non-empty depth-first result, or `[]`. */
  ghost function Deepen<T>(p: Problem<T>, maxDepth: int, heuristics: seq<T -> int>, limit: int)
    : (r: Result<seq<Node<T>>, UsageError>)
    ensures r.Err? ==> r.error == TooManyHeuristics
    ensures r.Ok? && |r.value| > 0 ==> p.goal(r.value[|r.value| - 1].state)
    decreases maxDepth - limit
  {
    if limit > maxDepth then Ok([])
    else
      match SearchOnce(p, DFS, limit, heuristics)
      case Err(e) => Err(e)
      case Ok(path) => if |path| > 0 then Ok(path) else Deepen(p, maxDepth, heuristics, limit + 1)
  }

  /** `pathTo(evaluator, A, maxDepth, heuristics...)`. */
  ghost function PathToSpec<T>(p: Problem<T>, algorithm: Algorithm, maxDepth: int, heuristics: seq<T -> int>)
    : (r: Result<seq<Node<T>>, UsageError>)
    ensures r == Err(AlgorithmNotApplicable) <==> !algorithm.Recognised()
    ensures r.Ok? && |r.value| > 0 ==> p.goal(r.value[|r.value| - 1].state)
  {
    if !algorithm.Recognised() then Err(AlgorithmNotApplicable)
    else if algorithm == IDS then Deepen(p, maxDepth, heuristics, 1)
    else SearchOnce(p, algorithm, maxDepth, heuristics)
  }
}
