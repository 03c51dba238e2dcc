/** The search algorithms. The source groups them in two enums behind a marker
    interface (uninformed: DFS, BFS, IDS, UCS; informed: GS, A*); here they are
    one sum type. `Unrecognised` stands for any other implementation of the
    marker interface, which the engine rejects. */
module Algorithms {

  datatype Algorithm = DFS | BFS | IDS | UCS | GS | AStar | Unrecognised
  {
    /** One of the six algorithms the engine knows. */
    predicate Recognised() {
      !Unrecognised?
    }

    /** A member of the heuristic (informed) enum. */
    predicate Informed() {
      GS? || AStar?
    }
  }

  /** The order in which a fringe gives its nodes back. */
  datatype Discipline = Lifo | Fifo | MinCost

  /** The storage the fringe picks for an algorithm: a stack, a FIFO queue or
      a priority queue ordered by node cost. */
  function DisciplineOf(a: Algorithm): (d: Discipline)
    requires a.Recognised()
    ensures d == Lifo <==> a in {DFS, IDS}
    ensures d == Fifo <==> a == BFS
    ensures d == MinCost <==> a in {UCS, GS, AStar}
  {
    match a
    case DFS => Lifo
    case IDS => Lifo
    case BFS => Fifo
    case _ => MinCost
  }
}
