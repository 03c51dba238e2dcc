/** Search-tree nodes and the moves that produce them. A node is immutable: its
    state, parent, move, cost and depth are fixed when it is built. The parent is
    an `Option<Node>` inside the node itself, so parent chains are finite and
    acyclic by construction. */
module Nodes {
  import opened Wrappers
  import opened JavaInt

  /** A named transition with a fixed cost. `None` from the transition is the
      source's `null`: the move does not apply at that state. */
  datatype Move<!T> = Move(name: string, transition: T -> Option<T>, cost: int)

  datatype Node<!T> = Node(state: T, parent: Option<Node<T>>, move: Option<Move<T>>, cost: int, depth: int)

  /** The one-argument constructor: the root of a search tree. */
  function Root<T>(s: T): (n: Node<T>)
    ensures n.state == s && n.parent.None? && n.move.None?
    ensures n.cost == 0 && n.depth == 0
    ensures Ancestry(n) == [n]
  {
    Node(s, None, None, 0, 0)
  }

  /** The nodes from the top of `n`'s parent chain down to `n` itself. */
  function Ancestry<T>(n: Node<T>): (path: seq<Node<T>>)
    ensures |path| >= 1 && path[|path| - 1] == n
    ensures path[0].parent.None?
    ensures forall i :: 0 <= i < |path| - 1 ==> path[i + 1].parent == Some(path[i])
    decreases n
  {
    match n.parent
    case None => [n]
    case Some(p) => Ancestry(p) + [n]
  }

  /** `compareTo`: the sign is that of the difference of the two costs; nothing
      but the cost is looked at. */
  function CompareTo<T>(a: Node<T>, b: Node<T>): (r: int)
    ensures r < 0 <==> a.cost < b.cost
    ensures r == 0 <==> a.cost == b.cost
    ensures r > 0 <==> a.cost > b.cost
  {
    a.cost - b.cost
  }

  /** `compareTo` as the source writes it, with the subtraction done in
      32-bit `int` arithmetic. */
  function CompareToAsWritten<T>(a: Node<T>, b: Node<T>): (r: int)
    ensures InInt32(r)
    ensures InInt32(a.cost - b.cost) ==> r == CompareTo(a, b)
  {
    Wrap32(a.cost - b.cost)
  }

  /** Two nodes whose costs are both Java ints, for which the 32-bit
      subtraction gives the wrong sign: the dearer node sorts first. */
  lemma CompareToAsWrittenOverflows<T>(s: T)
    ensures var dear := Node(s, None, None, Int32Max, 0);
            var cheap := Node(s, None, None, -1, 0);
            InInt32(dear.cost) && InInt32(cheap.cost) && dear.cost > cheap.cost &&
            CompareToAsWritten(dear, cheap) < 0 && CompareTo(dear, cheap) > 0
  {
  }

  /** Only the costs decide the comparison: state, parent, move and depth do not. */
  lemma CompareToLooksOnlyAtCost<T>(a: Node<T>, b: Node<T>, c: Node<T>, d: Node<T>)
    requires a.cost == c.cost && b.cost == d.cost
    ensures CompareTo(a, b) == CompareTo(c, d)
  {
  }

  lemma CompareToReflexiveAntisymmetric<T>(a: Node<T>, b: Node<T>)
    ensures CompareTo(a, a) == 0
    ensures CompareTo(a, b) == -CompareTo(b, a)
  {
  }

  /** `CompareTo(a, b) <= 0` is a total preorder: transitive and total. */
  lemma CompareToTotalPreorder<T>(a: Node<T>, b: Node<T>, c: Node<T>)
    ensures CompareTo(a, b) <= 0 && CompareTo(b, c) <= 0 ==> CompareTo(a, c) <= 0
    ensures CompareTo(a, b) <= 0 || CompareTo(b, a) <= 0
  {
  }
}
