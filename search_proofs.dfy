/** What `pathTo` promises, proved about the functions of `SearchSpec`. */
module SearchProofs {
  import opened Wrappers
  import opened JavaInt
  import opened Algorithms
  import opened Nodes
  import opened Fringes
  import opened SearchSpec

  /** The parent chain of a node of the search tree runs from the root to the
      node through steps of the move list, one node per level of depth. */
  lemma {:induction false} AncestryFromTree<T>(q: Query<T>, root: Node<T>, n: Node<T>)
    requires InTree(q, root, n) && root.depth == 0
    ensures Ancestry(n)[0] == root && |Ancestry(n)| == n.depth + 1 && IsChain(q, Ancestry(n))
    decreases n
  {
    match n.parent
    case None =>
    case Some(p) =>
      AncestryFromTree(q, root, p);
      var path, up := Ancestry(n), Ancestry(p);
      assert path == up + [n];
      forall i | 0 <= i < |path| - 1
        ensures Step(q, path[i], path[i + 1])
      {
        if i < |up| - 1 {
          assert path[i] == up[i] && path[i + 1] == up[i + 1];
        } else {
          assert path[i] == p && path[i + 1] == n;
        }
      }
  }

  /** The nodes on a fringe all belong to the tree below `root` and are no
      deeper than the depth bound allows. */
  ghost predicate TreeFringe<T>(q: Query<T>, root: Node<T>, items: seq<Node<T>>) {
    forall n :: n in items ==> InTree(q, root, n) && n.depth <= DepthCap(q.maxDepth)
  }

  /** The children of an expanded node (depth below the bound) keep the fringe
      inside the tree and within the depth bound. */
  lemma ExpansionKeepsTree<T>(q: Query<T>, root: Node<T>, n: Node<T>, rest: seq<Node<T>>, seen: set<T>)
    requires InTree(q, root, n) && n.depth < q.maxDepth && TreeFringe(q, root, rest)
    ensures TreeFringe(q, root, rest + Successors(q, n, q.moves, seen).kids)
  {
    var kids := Successors(q, n, q.moves, seen).kids;
    SuccessorsAreFreshChildren(q, n, q.moves, seen);
    forall c | c in rest + kids
      ensures InTree(q, root, c) && c.depth <= DepthCap(q.maxDepth)
    {
      if c !in rest {
        assert c in kids && IsChild(q, n, c);
      }
    }
  }

  /** Whatever the loop returns from a fringe of tree nodes is a solution: it
      starts at the root, each node is a child of the one before, the last
      state satisfies the goal, and it has at most `max(maxDepth, 0) + 1` nodes. */
  lemma {:induction false} RunSound<T>(q: Query<T>, root: Node<T>, items: seq<Node<T>>, seen: set<T>)
    requires q.algorithm.Recognised() && root.depth == 0 && TreeFringe(q, root, items)
    ensures |Run(q, items, seen)| > 0 ==> IsSolution(q, root, Run(q, items, seen))
    decreases FringeWeight(q, items)
  {
    if |items| > 0 {
      var k := PopIndex(DisciplineOf(q.algorithm), items);
      var n, rest := items[k], Remove(items, k);
      StepShrinks(q, items, k, seen);
      if q.goal(n.state) {
        AncestryFromTree(q, root, n);
      } else if n.depth >= q.maxDepth {
        RunSound(q, root, rest, seen);
      } else {
        var e := Successors(q, n, q.moves, seen);
        ExpansionKeepsTree(q, root, n, rest, seen);
        RunSound(q, root, rest + e.kids, e.seen);
      }
    }
  }

  /** Every node of `items` fails the goal, and so does every state a move
      reaches from one of them that is below the depth bound, unless that
      state was already in the duplicate set `seen`. */
  ghost predicate Rejected<T>(q: Query<T>, items: seq<Node<T>>, seen: set<T>) {
    && (forall n :: n in items ==> !q.goal(n.state))
    && (forall n, m :: n in items && n.depth < q.maxDepth && m in q.moves && m.transition(n.state).Some? ==>
          m.transition(n.state).value in seen || !q.goal(m.transition(n.state).value))
  }

  /** The loop returns `[]` only once every node it was given, and every node
      it pushed, failed the goal. */
  lemma {:induction false} RunExhausted<T>(q: Query<T>, items: seq<Node<T>>, seen: set<T>)
    requires q.algorithm.Recognised()
    ensures |Run(q, items, seen)| == 0 ==> Rejected(q, items, seen)
    decreases FringeWeight(q, items)
  {
    if |items| > 0 && |Run(q, items, seen)| == 0 {
      var k := PopIndex(DisciplineOf(q.algorithm), items);
      var n, rest := items[k], Remove(items, k);
      StepShrinks(q, items, k, seen);
      assert !q.goal(n.state);
      if n.depth >= q.maxDepth {
        RunExhausted(q, rest, seen);
      } else {
        var e := Successors(q, n, q.moves, seen);
        SuccessorsSeen(q, n, q.moves, seen);
        SuccessorsCover(q, n, q.moves, seen);
        RunExhausted(q, rest + e.kids, e.seen);
        forall s | s in e.seen && s !in seen
          ensures !q.goal(s)
        {
          var c :| c in e.kids && c.state == s;
          assert c in rest + e.kids;
        }
      }
    }
  }

  /** Joining two lists of nodes with distinct states keeps them distinct
      when every state of the first is in `s` and no state of the second is. */
  lemma DistinctConcat<T>(a: seq<Node<T>>, b: seq<Node<T>>, s: set<T>)
    requires DistinctStates(a) && DistinctStates(b)
    requires (forall k :: k in a ==> k.state in s) && (forall k :: k in b ==> k.state !in s)
    ensures DistinctStates(a + b) && StatesOf(a + b) == StatesOf(a) + StatesOf(b)
  {
  }

  /** Over a whole call, no two nodes the loop pushes share a state, none of
      them has a state of the starting duplicate set, and the duplicate set
      ends up holding exactly the starting set and the pushed states. */
  lemma {:induction false} PushedFresh<T>(q: Query<T>, items: seq<Node<T>>, seen: set<T>)
    requires q.algorithm.Recognised()
    ensures var x := Pushed(q, items, seen);
            && x.seen == seen + StatesOf(x.kids)
            && DistinctStates(x.kids)
            && forall c :: c in x.kids ==> c.state !in seen
    decreases FringeWeight(q, items)
  {
    if |items| == 0 {
      assert StatesOf(Pushed(q, items, seen).kids) == {};
    } else {
      var k := PopIndex(DisciplineOf(q.algorithm), items);
      var n, rest := items[k], Remove(items, k);
      StepShrinks(q, items, k, seen);
      if q.goal(n.state) {
        assert StatesOf(Pushed(q, items, seen).kids) == {};
      } else if n.depth >= q.maxDepth {
        PushedFresh(q, rest, seen);
      } else {
        var e := Successors(q, n, q.moves, seen);
        var later := Pushed(q, rest + e.kids, e.seen);
        assert Pushed(q, items, seen) == Expansion(e.kids + later.kids, later.seen);
        SuccessorsSeen(q, n, q.moves, seen);
        SuccessorsDistinct(q, n, q.moves, seen);
        SuccessorsAreFreshChildren(q, n, q.moves, seen);
        PushedFresh(q, rest + e.kids, e.seen);
        assert forall c :: c in e.kids ==> c.state in StatesOf(e.kids);
        DistinctConcat(e.kids, later.kids, e.seen);
      }
    }
  }

  /** Over a whole call, every node the loop pushes belongs to the tree below
      `root` (its parent chain is made of moves of the move list with the
      algorithm's cost rule) and is no deeper than `max(maxDepth, 0)`. */
  lemma {:induction false} PushedInTree<T>(q: Query<T>, root: Node<T>, items: seq<Node<T>>, seen: set<T>)
    requires q.algorithm.Recognised() && TreeFringe(q, root, items)
    ensures forall c :: c in Pushed(q, items, seen).kids ==> InTree(q, root, c) && c.depth <= DepthCap(q.maxDepth)
    decreases FringeWeight(q, items)
  {
    if |items| > 0 {
      var k := PopIndex(DisciplineOf(q.algorithm), items);
      var n, rest := items[k], Remove(items, k);
      StepShrinks(q, items, k, seen);
      assert forall c :: c in rest ==> c in items;
      if q.goal(n.state) {
      } else if n.depth >= q.maxDepth {
        PushedInTree(q, root, rest, seen);
      } else {
        var e := Successors(q, n, q.moves, seen);
        var later := Pushed(q, rest + e.kids, e.seen);
        assert Pushed(q, items, seen) == Expansion(e.kids + later.kids, later.seen);
        ExpansionKeepsTree(q, root, n, rest, seen);
        PushedInTree(q, root, rest + e.kids, e.seen);
        assert forall c :: c in e.kids ==> c in rest + e.kids;
      }
    }
  }

  /** The last node of a non-empty result of the loop is one of the nodes it
      was given or one that it pushed. */
  ghost predicate ReturnsPopped<T>(q: Query<T>, items: seq<Node<T>>, seen: set<T>)
    requires q.algorithm.Recognised()
  {
    var r := Run(q, items, seen);
    |r| > 0 ==> r[|r| - 1] in items || r[|r| - 1] in Pushed(q, items, seen).kids
  }

  /** The last node of a path the loop returns was popped from the fringe: it
      is one of the nodes the loop was given or one that it pushed. A goal
      state that the duplicate set kept off the fringe is never returned. */
  lemma {:induction false} RunReturnsPopped<T>(q: Query<T>, items: seq<Node<T>>, seen: set<T>)
    requires q.algorithm.Recognised()
    ensures ReturnsPopped(q, items, seen)
    decreases FringeWeight(q, items)
  {
    if |items| > 0 {
      var k := PopIndex(DisciplineOf(q.algorithm), items);
      var n, rest := items[k], Remove(items, k);
      StepShrinks(q, items, k, seen);
      if q.goal(n.state) {
        assert Run(q, items, seen) == Ancestry(n);
        assert ReturnsPopped(q, items, seen);
      } else if n.depth >= q.maxDepth {
        RunReturnsPopped(q, rest, seen);
        SkipRoundPopped(q, items, seen);
      } else {
        var e := Successors(q, n, q.moves, seen);
        RunReturnsPopped(q, rest + e.kids, e.seen);
        ExpandRoundPopped(q, items, seen);
      }
    }
  }

  /** A round that skips the popped node at the depth bound keeps what the
      rest of the fringe returns and pushes. */
  lemma SkipRoundPopped<T>(q: Query<T>, items: seq<Node<T>>, seen: set<T>)
    requires q.algorithm.Recognised() && |items| > 0
    requires var n := items[PopIndex(DisciplineOf(q.algorithm), items)];
             !q.goal(n.state) && n.depth >= q.maxDepth
    requires ReturnsPopped(q, Remove(items, PopIndex(DisciplineOf(q.algorithm), items)), seen)
    ensures ReturnsPopped(q, items, seen)
  {
    var k := PopIndex(DisciplineOf(q.algorithm), items);
    assert Run(q, items, seen) == Run(q, Remove(items, k), seen);
    assert Pushed(q, items, seen) == Pushed(q, Remove(items, k), seen);
  }

  /** A round that expands the popped node continues from the rest of the
      fringe and the children, and pushes those children first; whatever the
      loop returns from there was on the fringe before or was pushed. */
  lemma ExpandRoundPopped<T>(q: Query<T>, items: seq<Node<T>>, seen: set<T>)
    requires q.algorithm.Recognised() && |items| > 0
    requires var n := items[PopIndex(DisciplineOf(q.algorithm), items)];
             !q.goal(n.state) && n.depth < q.maxDepth
    requires var k := PopIndex(DisciplineOf(q.algorithm), items);
             var e := Successors(q, items[k], q.moves, seen);
             ReturnsPopped(q, Remove(items, k) + e.kids, e.seen)
    ensures ReturnsPopped(q, items, seen)
  {
    var k := PopIndex(DisciplineOf(q.algorithm), items);
    var rest := Remove(items, k);
    var e := Successors(q, items[k], q.moves, seen);
    var later := Pushed(q, rest + e.kids, e.seen);
    assert Run(q, items, seen) == Run(q, rest + e.kids, e.seen);
    assert Pushed(q, items, seen).kids == e.kids + later.kids;
    var r := Run(q, items, seen);
    if |r| > 0 {
      LaterPopped(items, rest, e.kids, later.kids, r[|r| - 1]);
    }
  }

  /** A node on the fringe after one round was on it before or was pushed in
      that round or a later one. */
  lemma LaterPopped<T>(items: seq<Node<T>>, rest: seq<Node<T>>, kids: seq<Node<T>>, later: seq<Node<T>>, last: Node<T>)
    requires forall c :: c in rest ==> c in items
    requires last in rest + kids || last in later
    ensures last in items || last in kids + later
  {
  }

  /** The loop returns `[]` only after every node it was given and every node
      it pushed failed the goal; so does every state that joined the
      duplicate set during the call. */
  lemma {:induction false} RunEmptyRejectsAll<T>(q: Query<T>, items: seq<Node<T>>, seen: set<T>)
    requires q.algorithm.Recognised()
    ensures |Run(q, items, seen)| == 0 ==>
              && (forall n :: n in items ==> !q.goal(n.state))
              && (forall c :: c in Pushed(q, items, seen).kids ==> !q.goal(c.state))
              && (forall s :: s in Pushed(q, items, seen).seen - seen ==> !q.goal(s))
    decreases FringeWeight(q, items)
  {
    if |Run(q, items, seen)| == 0 {
      if |items| > 0 {
        var k := PopIndex(DisciplineOf(q.algorithm), items);
        var n, rest := items[k], Remove(items, k);
        StepShrinks(q, items, k, seen);
        assert !q.goal(n.state);
        if n.depth >= q.maxDepth {
          RunEmptyRejectsAll(q, rest, seen);
        } else {
          var e := Successors(q, n, q.moves, seen);
          assert Pushed(q, items, seen).kids == e.kids + Pushed(q, rest + e.kids, e.seen).kids;
          RunEmptyRejectsAll(q, rest + e.kids, e.seen);
          assert forall c :: c in rest || c in e.kids ==> c in rest + e.kids;
        }
      }
      PushedFresh(q, items, seen);
      var x := Pushed(q, items, seen);
      forall s | s in x.seen - seen
        ensures !q.goal(s)
      {
        var c :| c in x.kids && c.state == s;
      }
    }
  }

  /** A non-iterative search result is a solution from the engine's root. */
  lemma SearchOnceSound<T>(p: Problem<T>, algorithm: Algorithm, maxDepth: int, heuristics: seq<T -> int>)
    requires algorithm.Recognised()
    requires p.root.parent.None? && p.root.depth == 0
    ensures var r := SearchOnce(p, algorithm, maxDepth, heuristics);
            r.Ok? && |r.value| > 0 ==> IsSolution(QueryOf(p, algorithm, maxDepth, heuristics), p.root, r.value)
  {
    if |heuristics| <= 1 {
      var q := QueryOf(p, algorithm, maxDepth, heuristics);
      assert TreeFringe(q, p.root, [p.root]);
      RunSound(q, p.root, [p.root], {});
    }
  }

  /** Iterative deepening fails exactly when too many heuristics were passed
      and at least one depth limit was tried. */
  lemma {:induction false} DeepenErrors<T>(p: Problem<T>, maxDepth: int, heuristics: seq<T -> int>, limit: int)
    ensures Deepen(p, maxDepth, heuristics, limit).Err? <==> limit <= maxDepth && |heuristics| > 1
    decreases maxDepth - limit
  {
    if limit <= maxDepth && |heuristics| <= 1 {
      DeepenErrors(p, maxDepth, heuristics, limit + 1);
    }
  }

  /** Iterative deepening returns `[]` exactly when no depth-first run at a
      limit from `limit` to `maxDepth` found a path. */
  lemma {:induction false} DeepenEmpty<T>(p: Problem<T>, maxDepth: int, heuristics: seq<T -> int>, limit: int)
    ensures Deepen(p, maxDepth, heuristics, limit) == Ok([]) <==>
            forall d :: limit <= d <= maxDepth ==> SearchOnce(p, DFS, d, heuristics) == Ok([])
    decreases maxDepth - limit
  {
    if limit <= maxDepth {
      var first := SearchOnce(p, DFS, limit, heuristics);
      if first == Ok([]) {
        assert Deepen(p, maxDepth, heuristics, limit) == Deepen(p, maxDepth, heuristics, limit + 1);
        DeepenEmpty(p, maxDepth, heuristics, limit + 1);
      } else {
        assert Deepen(p, maxDepth, heuristics, limit) != Ok([]);
      }
    }
  }

  /** An empty depth-first run at `limit`, followed by empty runs up to `d`,
      makes empty runs from `limit` up to `d`. */
  lemma EmptyRunsFrom<T>(p: Problem<T>, heuristics: seq<T -> int>, limit: int, d: int)
    requires SearchOnce(p, DFS, limit, heuristics) == Ok([])
    requires forall e :: limit + 1 <= e < d ==> SearchOnce(p, DFS, e, heuristics) == Ok([])
    ensures forall e :: limit <= e < d ==> SearchOnce(p, DFS, e, heuristics) == Ok([])
  {
  }

  /** A non-empty result of iterative deepening is the path found at the
      first limit, from `limit` up to `maxDepth`, whose depth-first run found
      one. */
  lemma {:induction false} DeepenFindsFirst<T>(p: Problem<T>, maxDepth: int, heuristics: seq<T -> int>, limit: int)
    ensures var r := Deepen(p, maxDepth, heuristics, limit);
            r.Ok? && |r.value| > 0 ==>
              exists d :: limit <= d <= maxDepth && SearchOnce(p, DFS, d, heuristics) == r &&
                forall e :: limit <= e < d ==> SearchOnce(p, DFS, e, heuristics) == Ok([])
    decreases maxDepth - limit
  {
    var r := Deepen(p, maxDepth, heuristics, limit);
    if limit <= maxDepth && r.Ok? && |r.value| > 0 {
      var first := SearchOnce(p, DFS, limit, heuristics);
      if first == Ok([]) {
        assert r == Deepen(p, maxDepth, heuristics, limit + 1);
        DeepenFindsFirst(p, maxDepth, heuristics, limit + 1);
        var d :| limit + 1 <= d <= maxDepth && SearchOnce(p, DFS, d, heuristics) == r &&
                 forall e :: limit + 1 <= e < d ==> SearchOnce(p, DFS, e, heuristics) == Ok([]);
        EmptyRunsFrom(p, heuristics, limit, d);
        assert limit <= d <= maxDepth && SearchOnce(p, DFS, d, heuristics) == r;
      } else {
        assert first == r;
      }
    }
  }

  /** A depth-first run at a limit up to `maxDepth` is a solution for the
      iterative-deepening query too: DFS and IDS give children the same cost,
      and a smaller limit is within the larger bound. */
  lemma DfsSolutionIsIdsSolution<T>(p: Problem<T>, d: int, maxDepth: int, heuristics: seq<T -> int>, path: seq<Node<T>>)
    requires d <= maxDepth && IsSolution(QueryOf(p, DFS, d, heuristics), p.root, path)
    ensures IsSolution(QueryOf(p, IDS, maxDepth, heuristics), p.root, path)
  {
  }

  /** Every non-empty result of `pathTo` is a solution from the engine's root:
      it starts at the root, each node is a child of the one before by a move
      of the move list with the algorithm's cost rule and depth one more, the
      last state satisfies the goal, and it has at most `max(maxDepth, 0) + 1`
      nodes. */
  lemma PathToSound<T>(p: Problem<T>, algorithm: Algorithm, maxDepth: int, heuristics: seq<T -> int>)
    requires p.root.parent.None? && p.root.depth == 0
    ensures var r := PathToSpec(p, algorithm, maxDepth, heuristics);
            r.Ok? && |r.value| > 0 ==> IsSolution(QueryOf(p, algorithm, maxDepth, heuristics), p.root, r.value)
  {
    var r := PathToSpec(p, algorithm, maxDepth, heuristics);
    if algorithm == IDS {
      DeepenFindsFirst(p, maxDepth, heuristics, 1);
      if r.Ok? && |r.value| > 0 {
        var d :| 1 <= d <= maxDepth && SearchOnce(p, DFS, d, heuristics) == r;
        SearchOnceSound(p, DFS, d, heuristics);
        DfsSolutionIsIdsSolution(p, d, maxDepth, heuristics, r.value);
      }
    } else if algorithm.Recognised() {
      SearchOnceSound(p, algorithm, maxDepth, heuristics);
    }
  }

  /** The last node of a non-empty search result was popped from the
      fringe: it is the root or a node the search pushed. */
  lemma SearchOnceReturnsPopped<T>(p: Problem<T>, algorithm: Algorithm, maxDepth: int, heuristics: seq<T -> int>)
    requires algorithm.Recognised()
    ensures var r := SearchOnce(p, algorithm, maxDepth, heuristics);
            r.Ok? && |r.value| > 0 ==>
              var last := r.value[|r.value| - 1];
              last == p.root || last in Pushed(QueryOf(p, algorithm, maxDepth, heuristics), [p.root], {}).kids
  {
    if |heuristics| <= 1 {
      var q := QueryOf(p, algorithm, maxDepth, heuristics);
      assert SearchOnce(p, algorithm, maxDepth, heuristics) == Ok(Run(q, [p.root], {}));
      RunReturnsPopped(q, [p.root], {});
      assert ReturnsPopped(q, [p.root], {});
    }
  }

  /** The last node of a non-empty `pathTo` result was popped from the
      fringe: it is the root or a node the search pushed. For iterative
      deepening the search is the depth-first run at the limit that found the
      path. */
  lemma PathToReturnsPopped<T>(p: Problem<T>, algorithm: Algorithm, maxDepth: int, heuristics: seq<T -> int>)
    ensures var r := PathToSpec(p, algorithm, maxDepth, heuristics);
            r.Ok? && |r.value| > 0 && algorithm != IDS ==>
              var last := r.value[|r.value| - 1];
              last == p.root || last in Pushed(QueryOf(p, algorithm, maxDepth, heuristics), [p.root], {}).kids
    ensures var r := PathToSpec(p, algorithm, maxDepth, heuristics);
            r.Ok? && |r.value| > 0 && algorithm == IDS ==>
              exists d :: 1 <= d <= maxDepth && SearchOnce(p, DFS, d, heuristics) == r &&
                var last := r.value[|r.value| - 1];
                last == p.root || last in Pushed(QueryOf(p, DFS, d, heuristics), [p.root], {}).kids
  {
    var r := PathToSpec(p, algorithm, maxDepth, heuristics);
    if r.Ok? && |r.value| > 0 {
      if algorithm == IDS {
        assert r == Deepen(p, maxDepth, heuristics, 1);
        DeepenFindsFirst(p, maxDepth, heuristics, 1);
        var d :| 1 <= d <= maxDepth && SearchOnce(p, DFS, d, heuristics) == r;
        SearchOnceReturnsPopped(p, DFS, d, heuristics);
      } else if algorithm.Recognised() {
        assert r == SearchOnce(p, algorithm, maxDepth, heuristics);
        SearchOnceReturnsPopped(p, algorithm, maxDepth, heuristics);
      }
    }
  }

  /** The usage errors: an unrecognised algorithm is rejected first; more than
      one heuristic is rejected for every other algorithm, except that
      iterative deepening only notices inside its first depth-first run, so
      with `maxDepth < 1` it returns `[]` instead. No other error occurs. */
  lemma PathToUsageErrors<T>(p: Problem<T>, algorithm: Algorithm, maxDepth: int, heuristics: seq<T -> int>)
    ensures var r := PathToSpec(p, algorithm, maxDepth, heuristics);
            && (!algorithm.Recognised() ==> r == Err(AlgorithmNotApplicable))
            && (algorithm.Recognised() && algorithm != IDS && |heuristics| > 1 ==> r == Err(TooManyHeuristics))
            && (algorithm == IDS && maxDepth < 1 ==> r == Ok([]))
            && (algorithm == IDS && maxDepth >= 1 && |heuristics| > 1 ==> r == Err(TooManyHeuristics))
            && (r.Err? ==> !algorithm.Recognised() || |heuristics| > 1)
  {
    if algorithm == IDS {
      DeepenErrors(p, maxDepth, heuristics, 1);
    }
  }

  /** Every node a search from the engine's root pushes is a tree node within
      the depth bound, whatever the result. Iterative deepening runs a depth-first
      search at each limit `d`, to which this applies with `d` as the bound. */
  lemma SearchPushedInTree<T>(p: Problem<T>, algorithm: Algorithm, maxDepth: int, heuristics: seq<T -> int>)
    requires algorithm.Recognised()
    requires p.root.parent.None? && p.root.depth == 0
    ensures var q := QueryOf(p, algorithm, maxDepth, heuristics);
            forall c :: c in Pushed(q, [p.root], {}).kids ==> InTree(q, p.root, c) && c.depth <= DepthCap(maxDepth)
  {
    var q := QueryOf(p, algorithm, maxDepth, heuristics);
    assert TreeFringe(q, p.root, [p.root]);
    PushedInTree(q, p.root, [p.root], {});
  }

  /** An empty result comes only after the fringe ran dry: the start state
      failed the goal, every state one move from it failed when the depth
      bound lets the root be expanded, and every state that joined the
      duplicate set during the call failed too (for iterative deepening, in
      the run at the last limit). */
  lemma PathToExhausted<T>(p: Problem<T>, algorithm: Algorithm, maxDepth: int, heuristics: seq<T -> int>)
    ensures var r := PathToSpec(p, algorithm, maxDepth, heuristics);
            var a := if algorithm == IDS then DFS else algorithm;
            var q := QueryOf(p, a, maxDepth, heuristics);
            r == Ok([]) && a.Recognised() && (algorithm == IDS ==> maxDepth >= 1) ==>
              && Rejected(q, [p.root], {})
              && forall s :: s in Pushed(q, [p.root], {}).seen ==> !p.goal(s)
  {
    var r := PathToSpec(p, algorithm, maxDepth, heuristics);
    var a := if algorithm == IDS then DFS else algorithm;
    var q := QueryOf(p, a, maxDepth, heuristics);
    if r == Ok([]) && a.Recognised() && (algorithm == IDS ==> maxDepth >= 1) {
      if algorithm == IDS {
        DeepenEmpty(p, maxDepth, heuristics, 1);
        assert SearchOnce(p, DFS, maxDepth, heuristics) == Ok([]);
      }
      RunExhausted(q, [p.root], {});
      RunEmptyRejectsAll(q, [p.root], {});
    }
  }

  /** Uninformed algorithms give a child the move's cost alone, whatever the
      heuristic. */
  lemma UninformedIgnoresHeuristic<T>(a: Algorithm, m: Move<T>, h1: T -> int, h2: T -> int, s: T)
    requires a.Recognised() && !a.Informed()
    ensures ChildCost(a, m, h1, s) == ChildCost(a, m, h2, s) == m.cost
  {
  }

  /** Greedy search costs a child by the heuristic alone, A* by the move's
      cost plus the heuristic; with no heuristic passed both use 0 for it. */
  lemma InformedCost<T>(m: Move<T>, heuristics: seq<T -> int>, s: T)
    requires |heuristics| <= 1
    ensures var h := DefaultHeuristic(heuristics);
            && ChildCost(GS, m, h, s) == (if |heuristics| == 1 then heuristics[0](s) else 0)
            && ChildCost(AStar, m, h, s) == m.cost + (if |heuristics| == 1 then heuristics[0](s) else 0)
  {
  }

  /** Costs are not accumulated: a child's cost does not depend on its
      parent's cost, and its depth is the parent's plus one. */
  lemma CostIgnoresParent<T>(q: Query<T>, p1: Node<T>, p2: Node<T>, m: Move<T>, s: T)
    requires p1.depth == p2.depth
    ensures Child(q, p1, m, s).cost == Child(q, p2, m, s).cost
    ensures Child(q, p1, m, s).depth == p1.depth + 1
  {
  }

  /** The root's state is never put in the duplicate set, so the first
      expansion pushes it again as a child whenever a move of the move list
      maps it to itself. */
  lemma RootStateCanComeBack<T>(q: Query<T>, root: Node<T>, m: Move<T>)
    requires m.transition(root.state) == Some(root.state)
    ensures Successors(q, root, [m], {}).kids == [Child(q, root, m, root.state)]
    ensures m in q.moves ==> exists c :: c in Successors(q, root, q.moves, {}).kids && c.state == root.state
  {
    SuccessorsCover(q, root, q.moves, {});
    SuccessorsSeen(q, root, q.moves, {});
  }

  /** The values of `depth` in the source's iterative-deepening loop after
      `k` rounds, with `depth++` done in 32-bit `int` arithmetic. */
  function IdsLimitAsWritten(k: nat): (d: int)
    ensures InInt32(d)
  {
    if k == 0 then 1 else Wrap32(IdsLimitAsWritten(k - 1) + 1)
  }

  /** With `maxDepth == Integer.MAX_VALUE` (the default of the shorter
      overloads) the guard `depth <= maxDepth` holds after any number of
      rounds: `depth` climbs to the largest `int` and then wraps to the
      smallest, so when no limit finds a path the loop never ends. */
  lemma {:induction false} IdsLimitWrapsAround(k: nat)
    ensures k < Int32Max ==> IdsLimitAsWritten(k) == k + 1
    ensures k == Int32Max ==> IdsLimitAsWritten(k) == Int32Min
  {
    if k > 0 {
      IdsLimitWrapsAround(k - 1);
    }
  }
}
