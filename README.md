# Tree-search engine (Dafny model)

A model of `TreeEngine`, a generic tree-search engine. It is given a start
state and a list of moves. A move is a named transition with a fixed cost. The
engine searches for a path from the start state to a state that satisfies a goal
predicate. Six algorithms are supported: depth-first (DFS), breadth-first (BFS),
uniform-cost (UCS), iterative deepening (IDS), greedy (GS) and A*.

- `Nodes` (Node.java, Move.java). A node is an immutable datatype. Its parent is
  an `Option<Node>`, so every parent chain is finite and acyclic. The datatype
  constructor is the five-argument Java constructor, and its destructors are the
  accessors. `Root` is the one-argument constructor. `CompareTo` orders nodes by
  cost only. `Ancestry` is the parent chain of a node, root first.
- `Algorithms`. The two Java enums become one datatype. The variant
  `Unrecognised` stands for any other implementation of the marker interface.
- `Fringes`. `Fringe` is a class whose field `items` holds the pending nodes in
  push order. Its `discipline` is fixed when it is built: LIFO for DFS and IDS,
  FIFO for BFS, minimum cost for UCS, GS and A*.
- `SearchSpec`. The expansion loop written as functions: `Successors` (one
  expansion), `Run` (the loop), `Pushed` (every node the loop pushes and the
  duplicate set it ends with), `SearchOnce`, `Deepen` (the IDS restarts) and
  `PathToSpec` (a whole call of `pathTo`). The loop terminates because of the
  depth bound alone. Children are made only from nodes above `maxDepth`. Each
  node weighs `(|moves| + 1)` to the power of the levels left above the bound,
  so a child weighs less than its parent. Each round then lowers the total
  weight of the fringe. No finiteness of the state space is assumed.
- `Engine`. The `TreeEngine` class: fields `initialNode` and `moveList`, the
  setters and getters, `PathTo` and its two overloads, and `ConstructPath`.
  `PathTo` and its two overloads are proved equal to `PathToSpec`, `Search`
  to `SearchOnce`, `Expand` to `Successors`, and `ConstructPath` to
  `Nodes.Ancestry`. The constructor, setters and getters state the new
  fields directly.
- `SearchProofs`. What a call promises:
  - a returned path is a valid parent chain from the root to a goal state;
  - the depth bound holds;
  - an empty result comes only after the fringe is exhausted;
  - IDS returns the result of the first limit that finds a path;
  - usage errors are raised exactly as described below;
  - each algorithm's cost rule.

Where the prose documentation and the code disagree, the model follows the code:

- Child costs are never accumulated. DFS, BFS, UCS and IDS give a child
  `move.cost`. GS gives `h(state)`. A* gives `move.cost + h(state)`. The
  documentation of `getCost` (Node.java:66-72) speaks of a total from the root;
  nothing proves that here, because the code does not do it.
- `maxDepth` is any `int`, not only a non-negative one. A search that gets
  past the usage checks goal-tests the root, and expands it only when
  `0 < maxDepth`. Two calls never goal-test it: IDS with `maxDepth < 1` runs no
  search and returns `[]`, and a call with more than one heuristic fails first.
- The start state is never put in the duplicate set. It can therefore come back
  once as a child.

## Model

| member | source | states |
|---|---|---|
| `Nodes.Root` | src/main/java/com/github/repomaestro/searching/Node.java:39-41 | the one-argument constructor gives a node with the given state, no parent, no move, cost 0 and depth 0; its path is itself alone |
| `Nodes.Ancestry` | src/main/java/io/github/repomaestro/searching/TreeEngine.java:270-280 | the path of a node is non-empty; it ends at the node and starts at a node without a parent; each element is the parent of the next |
| `Nodes.CompareTo` | src/main/java/com/github/repomaestro/searching/Node.java:93-95 | `compareTo` is negative, zero or positive exactly when this cost is less than, equal to or greater than the other (unbounded integers) |
| `Nodes.CompareToLooksOnlyAtCost` | src/main/java/com/github/repomaestro/searching/Node.java:93-95 | nodes with equal costs compare alike, whatever their state, parent, move or depth |
| `Nodes.CompareToReflexiveAntisymmetric` | src/main/java/com/github/repomaestro/searching/Node.java:93-95 | `compareTo(a, a) == 0` and `compareTo(a, b) == -compareTo(b, a)` |
| `Nodes.CompareToTotalPreorder` | src/main/java/com/github/repomaestro/searching/Node.java:93-95 | "compares at most 0" is transitive and total: a total preorder on cost, which the priority fringe relies on |
| `Nodes.CompareToAsWritten` | src/main/java/com/github/repomaestro/searching/Node.java:93-95 | the subtraction done in 32-bit arithmetic; it agrees with `CompareTo` whenever the difference fits in an `int` |
| `Nodes.CompareToAsWrittenOverflows` | src/main/java/com/github/repomaestro/searching/Node.java:93-95 | costs `Integer.MAX_VALUE` and `-1` compare with the wrong sign under 32-bit subtraction |
| `JavaInt.Wrap32` | src/main/java/com/github/repomaestro/searching/Node.java:94 | the result is an `int` congruent to the exact value modulo 2^32, and it is the exact value when that fits |
| `Algorithms.DisciplineOf` | src/main/java/io/github/repomaestro/searching/TreeEngine.java:44-53 | a stack for DFS and IDS, a FIFO queue for BFS, a priority queue for UCS, GS and A* (each in both directions) |
| `Fringes.MinIndex` | src/main/java/io/github/repomaestro/searching/TreeEngine.java:51-52 | the priority queue yields a pending node whose cost is no greater than any other's (the earliest pushed among equals) |
| `Fringes.PopIndex` | src/main/java/io/github/repomaestro/searching/TreeEngine.java:62-69 | the position `pop` takes: the last for a stack, the first for a FIFO queue, one of minimum cost for the priority queue |
| `Fringes.Remove` | src/main/java/io/github/repomaestro/searching/TreeEngine.java:62-69 | taking one node out leaves every other pending node, one fewer in all, with multiplicities preserved |
| `Fringes.Fringe.constructor` | src/main/java/io/github/repomaestro/searching/TreeEngine.java:44-53 | a new fringe is empty and its discipline is fixed by the algorithm |
| `Fringes.Fringe.Push` | src/main/java/io/github/repomaestro/searching/TreeEngine.java:55-60 | the node is appended to the pending nodes |
| `Fringes.Fringe.Pop` | src/main/java/io/github/repomaestro/searching/TreeEngine.java:62-69 | LIFO returns and removes the latest pushed node, FIFO the earliest, min-cost a node of minimum cost; exactly that one node leaves the fringe |
| `Fringes.Fringe.IsEmpty` | src/main/java/io/github/repomaestro/searching/TreeEngine.java:71-78 | true exactly when every pushed node has been popped |
| `SearchSpec.SuccessorsSeen` | src/main/java/io/github/repomaestro/searching/TreeEngine.java:213-216 | one expansion grows the duplicate set by exactly the states of the children it pushes, and pushes at most one child per move |
| `SearchSpec.SuccessorsAreFreshChildren` | src/main/java/io/github/repomaestro/searching/TreeEngine.java:213-229 | each pushed child has a state not already seen; it is built from the parent by one of the moves; its cost follows the algorithm's rule; its depth is the parent's plus one |
| `SearchSpec.SuccessorsDistinct` | src/main/java/io/github/repomaestro/searching/TreeEngine.java:213-216 | no two children pushed by one expansion share a state |
| `SearchSpec.SuccessorsCover` | src/main/java/io/github/repomaestro/searching/TreeEngine.java:213-216 | the duplicate set only grows, and afterwards holds every state that a move reaches from the expanded node |
| `SearchSpec.DefaultHeuristic` | src/main/java/io/github/repomaestro/searching/TreeEngine.java:180 | a single heuristic is used as given; with none, the constant 0 |
| `SearchSpec.ChildCost` | src/main/java/io/github/repomaestro/searching/TreeEngine.java:218-226 | uninformed algorithms cost a child `move.cost`, GS `h(state)`, A* `move.cost + h(state)`; nothing is added from the parent |
| `SearchSpec.Child` | src/main/java/io/github/repomaestro/searching/TreeEngine.java:228 | the node built for a successor state reached by a move is a child of the current node: its parent is that node, its move is the move, its cost follows the algorithm's rule and its depth is one more; with a move of the move list it is one step of a path |
| `SearchSpec.Successors` | src/main/java/io/github/repomaestro/searching/TreeEngine.java:213-230 | one expansion never shrinks the duplicate set, pushes at most one child per move, and every node it pushes is a child of the expanded node one level deeper |
| `SearchSpec.PopWeight` | src/main/java/io/github/repomaestro/searching/TreeEngine.java:62-69 | popping a node takes exactly its weight off the fringe's measure |
| `SearchSpec.ChildrenWeight` | src/main/java/io/github/repomaestro/searching/TreeEngine.java:202-229 | the children of a node above the depth bound, at most one per move and one level deeper, weigh less than it |
| `SearchSpec.StepShrinks` | src/main/java/io/github/repomaestro/searching/TreeEngine.java:190-231 | every round of the loop (pop and skip, or pop and expand) lowers the measure, so the loop ends for every `maxDepth`, over finite and infinite state spaces alike |
| `SearchSpec.Run` | src/main/java/io/github/repomaestro/searching/TreeEngine.java:190-233 | a path the loop returns starts at a parentless node and ends at a goal state |
| `SearchSpec.Pushed` | src/main/java/io/github/repomaestro/searching/TreeEngine.java:186-229 | the duplicate set the call ends with contains the one it had at every earlier round |
| `SearchSpec.SearchOnce` | src/main/java/io/github/repomaestro/searching/TreeEngine.java:176-233 | a non-IDS search fails exactly when more than one heuristic is passed, and only with that error; a non-empty result ends at a goal state |
| `SearchSpec.Deepen` | src/main/java/io/github/repomaestro/searching/TreeEngine.java:165-173 | the IDS restarts fail only with the heuristic error; a non-empty result ends at a goal state |
| `SearchSpec.PathToSpec` | src/main/java/io/github/repomaestro/searching/TreeEngine.java:161-234 | a call fails with "not applicable" exactly when the algorithm is unrecognised; a non-empty result ends at a goal state |
| `SearchProofs.AncestryFromTree` | src/main/java/io/github/repomaestro/searching/TreeEngine.java:270-280 | the path built from a search-tree node starts at the root, has depth+1 nodes, and each node is a child of the previous one by a listed move |
| `SearchProofs.ExpansionKeepsTree` | src/main/java/io/github/repomaestro/searching/TreeEngine.java:202-229 | children of a node expanded below the depth bound are tree nodes within the bound |
| `SearchProofs.RunSound` | src/main/java/io/github/repomaestro/searching/TreeEngine.java:190-231 | a non-empty result of the loop starts at the root, is a chain of children, ends at a goal state and has at most max(maxDepth, 0)+1 nodes |
| `SearchProofs.RunReturnsPopped` | src/main/java/io/github/repomaestro/searching/TreeEngine.java:190-201 | the last node of a non-empty result of the loop was on the fringe: it is one of the nodes the loop was given or one it pushed, never a goal state the duplicate set kept off the fringe |
| `SearchProofs.RunExhausted` | src/main/java/io/github/repomaestro/searching/TreeEngine.java:190-233 | the loop returns empty only after every node it held, and every successor of those below the depth bound that was not seen before, failed the goal |
| `SearchProofs.PushedFresh` | src/main/java/io/github/repomaestro/searching/TreeEngine.java:186-229 | across the whole call, no two pushed nodes share a state, none has a state already in the starting duplicate set, and the final duplicate set is the starting one plus exactly the pushed states |
| `SearchProofs.PushedInTree` | src/main/java/io/github/repomaestro/searching/TreeEngine.java:186-229 | across the whole call, every node pushed from a fringe of tree nodes is itself a tree node (a chain of moves of the move list from the root, each with the cost rule) and is no deeper than `max(maxDepth, 0)` |
| `SearchProofs.SearchPushedInTree` | src/main/java/io/github/repomaestro/searching/TreeEngine.java:183-229 | every node a search from the engine's root pushes, whatever its result, is a tree node no deeper than `max(maxDepth, 0)`; for IDS this holds for the depth-first run at each limit |
| `SearchProofs.RunEmptyRejectsAll` | src/main/java/io/github/repomaestro/searching/TreeEngine.java:190-233 | an empty result of the loop means every node it was given, every node it pushed, and every state that joined the duplicate set failed the goal |
| `SearchProofs.SearchOnceSound` | src/main/java/io/github/repomaestro/searching/TreeEngine.java:176-233 | a non-empty result of a non-IDS search is a solution from the engine's root |
| `SearchProofs.SearchOnceReturnsPopped` | src/main/java/io/github/repomaestro/searching/TreeEngine.java:189-201 | the last node of a non-empty search result is the root or a node that search pushed |
| `SearchProofs.DeepenErrors` | src/main/java/io/github/repomaestro/searching/TreeEngine.java:165-177 | IDS fails exactly when more than one heuristic was passed and at least one limit was tried |
| `SearchProofs.DeepenEmpty` | src/main/java/io/github/repomaestro/searching/TreeEngine.java:165-173 | IDS returns empty exactly when no depth-first run at limits 1..maxDepth found a path |
| `SearchProofs.DeepenFindsFirst` | src/main/java/io/github/repomaestro/searching/TreeEngine.java:165-173 | a non-empty IDS result is the path of the first limit whose depth-first run found one |
| `SearchProofs.DfsSolutionIsIdsSolution` | src/main/java/io/github/repomaestro/searching/TreeEngine.java:169 | a depth-first solution at limit d <= maxDepth is a solution of the IDS call (same cost rule, smaller bound) |
| `SearchProofs.PathToSound` | src/main/java/io/github/repomaestro/searching/TreeEngine.java:161-234 | every non-empty result of `pathTo`, for any algorithm, starts at the root, is a chain of children by listed moves with the algorithm's costs, ends at a goal state and has at most max(maxDepth, 0)+1 nodes |
| `SearchProofs.PathToReturnsPopped` | src/main/java/io/github/repomaestro/searching/TreeEngine.java:161-201 | the last node of a non-empty `pathTo` result is the root or a node the search pushed; for IDS, the depth-first run at the limit whose result was returned |
| `SearchProofs.PathToUsageErrors` | src/main/java/io/github/repomaestro/searching/TreeEngine.java:161-177 | an unrecognised algorithm is rejected; more than one heuristic is rejected for every other non-IDS algorithm, and for IDS only when maxDepth >= 1 (otherwise empty); no other error occurs |
| `SearchProofs.PathToExhausted` | src/main/java/io/github/repomaestro/searching/TreeEngine.java:186-233 | an empty result of a search that ran means the start state failed the goal; so did every state one move from it that was not seen first (when the root is expanded) and every state in the final duplicate set; for IDS this is the run at the last limit |
| `SearchProofs.UninformedIgnoresHeuristic` | src/main/java/io/github/repomaestro/searching/TreeEngine.java:224-226 | DFS, BFS, UCS and IDS give a child the move's cost, whatever the heuristic |
| `SearchProofs.InformedCost` | src/main/java/io/github/repomaestro/searching/TreeEngine.java:180-223 | GS costs a child h(state), A* costs it move.cost + h(state), with h the constant 0 when no heuristic is passed |
| `SearchProofs.CostIgnoresParent` | src/main/java/io/github/repomaestro/searching/TreeEngine.java:218-228 | a child's cost does not depend on its parent's cost; its depth is the parent's plus one |
| `SearchProofs.RootStateCanComeBack` | src/main/java/io/github/repomaestro/searching/TreeEngine.java:186-189 | the root's state is not in the duplicate set, so a move that maps it to itself pushes it again as a child: alone it pushes exactly that child, and in the move list some child of the first expansion has the root's state |
| `SearchProofs.IdsLimitAsWritten` | src/main/java/io/github/repomaestro/searching/TreeEngine.java:166-171 | the IDS `depth` variable after k rounds of 32-bit `depth++` is always an `int` |
| `SearchProofs.IdsLimitWrapsAround` | src/main/java/io/github/repomaestro/searching/TreeEngine.java:166-171 | `depth` counts 1, 2, … up to Integer.MAX_VALUE and then wraps to Integer.MIN_VALUE; with `IdsLimitAsWritten` keeping it an `int`, the guard `depth <= Integer.MAX_VALUE` never fails |
| `Engine.TreeEngine.constructor` | src/main/java/io/github/repomaestro/searching/TreeEngine.java:93-96 | the start node is a fresh root of the start state (`Valid`), and the move list is the given one |
| `Engine.TreeEngine.SetInitial` | src/main/java/io/github/repomaestro/searching/TreeEngine.java:103-106 | `initial(s)` installs a root node of s (`Valid`), which `initial()` then returns; the move list is unchanged; the engine itself is returned |
| `Engine.TreeEngine.SetMoves` | src/main/java/io/github/repomaestro/searching/TreeEngine.java:123-126 | `moves(ms)` installs ms, which `moves()` then returns; the start node is unchanged, so it stays a root; the engine itself is returned |
| `Engine.TreeEngine.Initial` | src/main/java/io/github/repomaestro/searching/TreeEngine.java:112-114 | the getter returns the start state, whose root is the start node whenever that node is a root |
| `Engine.TreeEngine.Moves` | src/main/java/io/github/repomaestro/searching/TreeEngine.java:132-134 | the getter returns the move list currently held, the one every search expands with |
| `Engine.TreeEngine.PathTo` | src/main/java/io/github/repomaestro/searching/TreeEngine.java:161-174 | the result equals `PathToSpec`: the unrecognised-algorithm error, the IDS restart loop, or one search; from a root start node, a non-empty result is a solution (the conclusion of `PathToSound`) |
| `Engine.TreeEngine.PathToUnbounded` | src/main/java/io/github/repomaestro/searching/TreeEngine.java:246-248 | same as `PathTo` with maxDepth = Integer.MAX_VALUE |
| `Engine.TreeEngine.PathToAStar` | src/main/java/io/github/repomaestro/searching/TreeEngine.java:260-262 | same as `PathTo` with A* and maxDepth = Integer.MAX_VALUE |
| `Engine.TreeEngine.Search` | src/main/java/io/github/repomaestro/searching/TreeEngine.java:176-233 | the heuristic-count check, then a loop that pops, goal-tests, skips at the depth bound and expands; it equals `SearchOnce`, i.e. `Run` from the root and an empty duplicate set |
| `Engine.TreeEngine.Expand` | src/main/java/io/github/repomaestro/searching/TreeEngine.java:213-230 | the loop over the moves pushes exactly `Successors(...).kids` and leaves the duplicate set `Successors(...).seen` |
| `Engine.TreeEngine.ConstructPath` | src/main/java/io/github/repomaestro/searching/TreeEngine.java:270-280 | collecting parents upward and reversing gives exactly the root-first path of the node |
| `Engine.TreeEngine.ReverseBySwaps` | src/main/java/io/github/repomaestro/searching/TreeEngine.java:278 | swapping from both ends inward gives `Reversed` of the walk |
| `Engine.Reversed` | src/main/java/io/github/repomaestro/searching/TreeEngine.java:278 | reversal keeps the length |
| `Engine.ReversedPermutes` | src/main/java/io/github/repomaestro/searching/TreeEngine.java:278 | reversal keeps every node, with its number of occurrences |
| `Engine.WalkUp` | src/main/java/io/github/repomaestro/searching/TreeEngine.java:270-277 | each step of the upward walk keeps "the path of the node is the path of the current node followed by the walk reversed"; at the top, the path is the walk reversed |
| `Engine.ReversedSnoc` | src/main/java/io/github/repomaestro/searching/TreeEngine.java:270-278 | reversing a list with one more element at the end puts that element first |

## Findings

| source | as written | input that shows it | evidently intended | confidence | as-written member | corrected member |
|---|---|---|---|---|---|---|
| src/main/java/com/github/repomaestro/searching/Node.java:94 | `compareTo` returns `this.cost - another.cost` in 32-bit arithmetic | costs `2147483647` and `-1`: the difference wraps to a negative number, so the dearer node sorts first in the priority fringe | the sign of the exact difference (as `Integer.compare` gives) | high that the sign is wrong for such costs; not executed | `Nodes.CompareToAsWritten`, `Nodes.CompareToAsWrittenOverflows` | `Nodes.CompareTo`, `Nodes.CompareToTotalPreorder` |
| src/main/java/io/github/repomaestro/searching/TreeEngine.java:166-171 | the IDS loop runs while `depth <= maxDepth` and increments an `int` `depth` | IDS with `maxDepth = Integer.MAX_VALUE` (the default of the shorter overloads) and a goal no state satisfies: `depth` wraps to `Integer.MIN_VALUE`, the guard stays true, and the loop never ends | stop after the run at limit `maxDepth` and return empty | medium (it needs 2^31 depth-first runs to show); not executed | `SearchProofs.IdsLimitAsWritten`, `SearchProofs.IdsLimitWrapsAround` | `SearchSpec.Deepen` with `SearchProofs.DeepenEmpty` |

## Left out

- State.java is not part of this model. Its equality and hash go through Java
  serialisation. The state is a type parameter with Dafny equality, and the
  duplicate set is a `set`. An inconsistent `equals`/`hashCode` is not modelled.
- The goal predicate, the transitions and the heuristics are user code. They
  are total Dafny functions with no side effects.
- Fringes.MinIndex: among nodes of equal minimum cost it takes the earliest
  pushed. Java's `PriorityQueue` makes no promise here, and its binary heap
  behaves otherwise. After pushing A, B and C of equal cost, `poll` returns A
  and then C, while the model returns A and then B. Every property of `Run`
  and `pathTo` is proved for this fixed rule. Under cost ties, the path that
  UCS, GS and A* return may therefore differ from the source's. The heap
  layout is not modelled.
- Fringe.Pop: pops only a non-empty fringe. Java throws on an empty one, but
  the engine always checks `isEmpty` first.
- Fringe.constructor: requires a recognised algorithm. With any other
  algorithm the source's fringe would ignore pushes, pop `null` and never be
  empty. `pathTo` rejects such an algorithm before it builds a fringe.
- Java `int` overflow is not modelled, outside the two findings: costs, depths
  and `move.cost + h(state)` are unbounded integers.
- `moves()` returns the engine's own `ArrayList`, so a caller can mutate it.
  That aliasing is not modelled: the getter returns the sequence by value.
- The path is returned as an immutable sequence; `Collections.unmodifiableList`,
  `EMPTY_LIST` and varargs are sequences.
- Optimality and completeness are not claimed. `SearchProofs.RunEmptyRejectsAll`
  and `SearchProofs.PathToExhausted` say that an empty result means every node
  the call pushed failed the goal. They do not say that no goal is reachable
  within `maxDepth`. The source does not promise that, and it is false in
  general: the duplicate set can suppress a shallower route to a state that
  was first reached deeper.
- `toString` and the package documentation (package-info.java, the grid
  example) are not part of this model.
