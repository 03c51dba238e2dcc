/** The search fringe: pending nodes, handed back in an order fixed by the
    algorithm when the fringe is built (stack, FIFO queue or priority queue). */
module Fringes {
  import opened Algorithms
  import opened Nodes

  /** The position of the earliest pending node of minimum cost, as
      `CompareTo` orders them. Java's priority queue returns some node of
      minimum cost and does not say which; this model fixes the earliest
      pushed one. */
  function MinIndex<T>(items: seq<Node<T>>): (k: nat)
    requires |items| > 0
    ensures k < |items|
    ensures forall j :: 0 <= j < |items| ==> CompareTo(items[k], items[j]) <= 0
    ensures forall j :: 0 <= j < k ==> CompareTo(items[j], items[k]) > 0
    decreases |items|
  {
    if |items| == 1 then 0
    else
      var k := MinIndex(items[..|items| - 1]);
      if CompareTo(items[|items| - 1], items[k]) < 0 then |items| - 1 else k
  }

  /** The position that `pop` takes from under each discipline. */
  function PopIndex<T>(d: Discipline, items: seq<Node<T>>): (k: nat)
    requires |items| > 0
    ensures k < |items|
    ensures d == Lifo ==> k == |items| - 1
    ensures d == Fifo ==> k == 0
    ensures d == MinCost ==> forall j :: 0 <= j < |items| ==> CompareTo(items[k], items[j]) <= 0
  {
    match d
    case Lifo => |items| - 1
    case Fifo => 0
    case MinCost => MinIndex(items)
  }

  /** `items` without its `k`-th element. */
  function Remove<T>(items: seq<Node<T>>, k: nat): (rest: seq<Node<T>>)
    requires k < |items|
    ensures |rest| == |items| - 1
    ensures multiset(rest) + multiset{items[k]} == multiset(items)
    ensures forall n :: n in rest ==> n in items
    ensures forall n :: n in items ==> n == items[k] || n in rest
  {
    assert items == items[..k] + [items[k]] + items[k + 1..];
    items[..k] + items[k + 1..]
  }

  class Fringe<T> {
    const discipline: Discipline
    /** The pending nodes in the order they were pushed. */
    var items: seq<Node<T>>

    constructor (a: Algorithm)
      requires a.Recognised()
      ensures discipline == DisciplineOf(a) && items == []
    {
      discipline := DisciplineOf(a);
      items := [];
    }

    method Push(n: Node<T>)
      modifies this
      ensures items == old(items) + [n]
    {
      items := items + [n];
    }

    method Pop() returns (n: Node<T>)
      requires |items| > 0
      modifies this
      ensures n == old(items)[PopIndex(discipline, old(items))]
      ensures items == Remove(old(items), PopIndex(discipline, old(items)))
      ensures discipline == Lifo ==> n == old(items)[|old(items)| - 1] && items == old(items)[..|old(items)| - 1]
      ensures discipline == Fifo ==> n == old(items)[0] && items == old(items)[1..]
      ensures discipline == MinCost ==> forall m :: m in old(items) ==> CompareTo(n, m) <= 0
      ensures multiset(items) + multiset{n} == multiset(old(items))
    {
      var k := PopIndex(discipline, items);
      n := items[k];
      items := Remove(items, k);
    }

    method IsEmpty() returns (b: bool)
      ensures b <==> |items| == 0
    {
      b := |items| == 0;
    }
  }
}
