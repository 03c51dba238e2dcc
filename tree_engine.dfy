/** The engine: a start node and a move list that the setters overwrite, and
    `pathTo`, whose expansion loop is proved equal to `SearchSpec.Run`. */
module Engine {
  import opened Wrappers
  import opened JavaInt
  import opened Algorithms
  import opened Nodes
  import opened Fringes
  import opened SearchSpec
  import opened SearchProofs

  /** `s` back to front. */
  function Reversed<T>(s: seq<Node<T>>): (r: seq<Node<T>>)
    ensures |r| == |s|
  {
    seq(|s|, i requires 0 <= i < |s| => s[|s| - 1 - i])
  }

  /** Reversing keeps every node, as many times as it occurs. */
  lemma {:induction false} ReversedPermutes<T>(s: seq<Node<T>>)
    ensures multiset(Reversed(s)) == multiset(s)
    decreases |s|
  {
    if |s| > 0 {
      var init, last := s[..|s| - 1], s[|s| - 1];
      assert s == init + [last];
      ReversedSnoc(init, last);
      ReversedPermutes(init);
    }
  }

  lemma ReversedSnoc<T>(s: seq<Node<T>>, n: Node<T>)
    ensures Reversed(s + [n]) == [n] + Reversed(s)
  {
  }

  /** One step of the upward walk of `constructPath` keeps the path of `node`
      equal to the path of the current node followed by the walk reversed. */
  lemma WalkUp<T>(node: Node<T>, n: Node<T>, walk: seq<Node<T>>)
    requires Ancestry(node) == Ancestry(n) + Reversed(walk)
    ensures n.parent.Some? ==> Ancestry(node) == Ancestry(n.parent.value) + Reversed(walk + [n])
    ensures n.parent.None? ==> Ancestry(node) == Reversed(walk + [n])
  {
    ReversedSnoc(walk, n);
    match n.parent
    case None =>
      assert Ancestry(n) == [n];
    case Some(p) =>
      assert Ancestry(n) == Ancestry(p) + [n];
      assert Ancestry(p) + [n] + Reversed(walk) == Ancestry(p) + ([n] + Reversed(walk));
  }

  class TreeEngine<T(==)> {
    var initialNode: Node<T>
    var moveList: seq<Move<T>>

    /** The start node is a root: no parent, no move, cost 0, depth 0. */
    ghost predicate Valid()
      reads this
    {
      initialNode == Root(initialNode.state)
    }

    constructor (initialState: T, moves: seq<Move<T>>)
      ensures initialNode == Root(initialState) && moveList == moves
      ensures Initial() == initialState && Moves() == moves && Valid()
    {
      initialNode := Root(initialState);
      moveList := moves;
    }

    /** `initial()`: the start state. */
    function Initial(): (s: T)
      reads this
      ensures Valid() ==> initialNode == Root(s)
    {
      initialNode.state
    }

    /** `moves()`: the current move list, the one every search expands with. */
    function Moves(): (ms: seq<Move<T>>)
      reads this
      ensures ms == moveList
    {
      moveList
    }

    /** `initial(T)`: a fresh root for `initialState`; the moves are kept. */
    method SetInitial(initialState: T) returns (self: TreeEngine<T>)
      modifies this
      ensures initialNode == Root(initialState) && Initial() == initialState && Valid()
      ensures moveList == old(moveList) && self == this
    {
      initialNode := Root(initialState);
      self := this;
    }

    /** `moves(List)`: the move list replaced wholesale; the root is kept. */
    method SetMoves(newMoves: seq<Move<T>>) returns (self: TreeEngine<T>)
      modifies this
      ensures moveList == newMoves && Moves() == newMoves
      ensures initialNode == old(initialNode) && self == this
      ensures old(Valid()) ==> Valid()
    {
      moveList := newMoves;
      self := this;
    }

    ghost function ProblemOf(goal: T -> bool): Problem<T>
      reads this
    {
      Problem(initialNode, moveList, goal)
    }

    /** `pathTo(evaluator, A, maxDepth, heuristics...)`: the result of
        `PathToSpec`, and so, from a root start node, a path that
        `SearchProofs.PathToSound` shows to be a solution. */
    method PathTo(goal: T -> bool, algorithm: Algorithm, maxDepth: int, heuristics: seq<T -> int>)
      returns (r: Result<seq<Node<T>>, UsageError>)
      ensures r == PathToSpec(ProblemOf(goal), algorithm, maxDepth, heuristics)
      ensures Valid() && r.Ok? && |r.value| > 0 ==>
                IsSolution(QueryOf(ProblemOf(goal), algorithm, maxDepth, heuristics), initialNode, r.value)
    {
      if Valid() {
        PathToSound(ProblemOf(goal), algorithm, maxDepth, heuristics);
      }
      if !algorithm.Recognised() {
        return Err(AlgorithmNotApplicable);
      }
      if algorithm == IDS {
        ghost var p := ProblemOf(goal);
        var depth := 1;
        var path: seq<Node<T>> := [];
        while |path| == 0 && depth <= maxDepth
          invariant Deepen(p, maxDepth, heuristics, 1) ==
                    if |path| == 0 then Deepen(p, maxDepth, heuristics, depth) else Ok(path)
          decreases maxDepth - depth
        {
          var res := Search(goal, DFS, depth, heuristics);
          if res.Err? {
            return res;
          }
          path := res.value;
          depth := depth + 1;
        }
        return Ok(path);
      }
      r := Search(goal, algorithm, maxDepth, heuristics);
    }

    /** `pathTo(evaluator, A, heuristics...)`: no depth bound beyond Java's
        largest `int`. */
    method PathToUnbounded(goal: T -> bool, algorithm: Algorithm, heuristics: seq<T -> int>)
      returns (r: Result<seq<Node<T>>, UsageError>)
      ensures r == PathToSpec(ProblemOf(goal), algorithm, Int32Max, heuristics)
    {
      r := PathTo(goal, algorithm, Int32Max, heuristics);
    }

    /** `pathTo(evaluator, heuristics...)`: A* with no depth bound beyond
        Java's largest `int`. */
    method PathToAStar(goal: T -> bool, heuristics: seq<T -> int>)
      returns (r: Result<seq<Node<T>>, UsageError>)
      ensures r == PathToSpec(ProblemOf(goal), AStar, Int32Max, heuristics)
    {
      r := PathTo(goal, AStar, Int32Max, heuristics);
    }

    /** The body of `pathTo` for every algorithm but IDS: the heuristic-count
        check, then the expansion loop over a fresh fringe and duplicate set. */
    method Search(goal: T -> bool, algorithm: Algorithm, maxDepth: int, heuristics: seq<T -> int>)
      returns (r: Result<seq<Node<T>>, UsageError>)
      requires algorithm.Recognised()
      ensures r == SearchOnce(ProblemOf(goal), algorithm, maxDepth, heuristics)
    {
      if |heuristics| > 1 {
        return Err(TooManyHeuristics);
      }
      var heuristic := DefaultHeuristic(heuristics);
      ghost var q := QueryOf(ProblemOf(goal), algorithm, maxDepth, heuristics);
      var fringe := new Fringe<T>(algorithm);
      var dupSet: set<T> := {};
      fringe.Push(initialNode);
      var empty := fringe.IsEmpty();
      while !empty
        invariant fringe.discipline == DisciplineOf(algorithm)
        invariant Run(q, fringe.items, dupSet) == Run(q, [initialNode], {})
        invariant empty <==> |fringe.items| == 0
        decreases FringeWeight(q, fringe.items)
      {
        ghost var before := fringe.items;
        ghost var k := PopIndex(fringe.discipline, before);
        StepShrinks(q, before, k, dupSet);
        var current := fringe.Pop();
        assert current == before[k] && fringe.items == Remove(before, k);
        if goal(current.state) {
          assert Run(q, before, dupSet) == Ancestry(current);
          var path := ConstructPath(current);
          return Ok(path);
        } else if current.depth >= maxDepth {
          assert Run(q, before, dupSet) == Run(q, fringe.items, dupSet);
          empty := fringe.IsEmpty();
          continue;
        }
        ghost var e := Successors(q, current, q.moves, dupSet);
        assert Run(q, before, dupSet) == Run(q, fringe.items + e.kids, e.seen);
        dupSet := Expand(fringe, q, algorithm, heuristic, current, dupSet);
        empty := fringe.IsEmpty();
      }
      return Ok([]);
    }

    /** The `for` loop over the move list that expands `current`. */
    method Expand(fringe: Fringe<T>, ghost q: Query<T>, algorithm: Algorithm, heuristic: T -> int,
                  current: Node<T>, dupSet: set<T>) returns (seen: set<T>)
      requires q.moves == moveList && q.algorithm == algorithm && q.heuristic == heuristic
      modifies fringe
      ensures fringe.items == old(fringe.items) + Successors(q, current, moveList, dupSet).kids
      ensures seen == Successors(q, current, moveList, dupSet).seen
    {
      seen := dupSet;
      var i := 0;
      while i < |moveList|
        invariant 0 <= i <= |moveList|
        invariant fringe.items + Successors(q, current, moveList[i..], seen).kids ==
                  old(fringe.items) + Successors(q, current, moveList, dupSet).kids
        invariant Successors(q, current, moveList[i..], seen).seen == Successors(q, current, moveList, dupSet).seen
      {
        var successor := moveList[i];
        assert moveList[i..][1..] == moveList[i + 1..];
        ghost var e := Successors(q, current, moveList[i..], seen);
        var state := successor.transition(current.state);
        if state.Some? && state.value !in seen {
          ghost var rest := Successors(q, current, moveList[i + 1..], seen + {state.value});
          var cost := ChildCost(algorithm, successor, heuristic, state.value);
          var leaf := Node(state.value, Some(current), Some(successor), cost, current.depth + 1);
          assert e == Expansion([leaf] + rest.kids, rest.seen);
          assert fringe.items + e.kids == (fringe.items + [leaf]) + rest.kids;
          seen := seen + {state.value};
          fringe.Push(leaf);
        } else {
          assert e == Successors(q, current, moveList[i + 1..], seen);
        }
        i := i + 1;
      }
    }

    /** `constructPath`: collect the parent chain from `node` upwards, then
        reverse the list in place. */
    method ConstructPath(node: Node<T>) returns (path: seq<Node<T>>)
      ensures path == Ancestry(node)
    {
      var walk: seq<Node<T>> := [];
      var n := node;
      while n.parent.Some?
        invariant Ancestry(node) == Ancestry(n) + Reversed(walk)
        decreases n
      {
        WalkUp(node, n, walk);
        walk := walk + [n];
        n := n.parent.value;
      }
      WalkUp(node, n, walk);
      walk := walk + [n];
      path := ReverseBySwaps(walk);
    }

    /** `Collections.reverse`: swap the two ends inwards. */
    method ReverseBySwaps(walk: seq<Node<T>>) returns (path: seq<Node<T>>)
      ensures path == Reversed(walk)
    {
      path := walk;
      var i := 0;
      while i < |path| / 2
        invariant |path| == |walk| && 0 <= i <= |walk| / 2
        invariant forall k :: 0 <= k < i ==> path[k] == walk[|walk| - 1 - k] && path[|walk| - 1 - k] == walk[k]
        invariant forall k :: i <= k < |walk| - i ==> path[k] == walk[k]
      {
        path := path[i := path[|path| - 1 - i]][|path| - 1 - i := path[i]];
        i := i + 1;
      }
      assert forall k :: 0 <= k < |walk| ==> path[k] == walk[|walk| - 1 - k];
    }
  }
}
