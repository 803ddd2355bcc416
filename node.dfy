/**
 * A vertex of the graph: a value, an append-only adjacency list and the two
 * transient fields the breadth-first search writes (visited, parent).
 * Equality and hashing look at the value only.
 */
module Nodes {

  /** Java's `int` arithmetic: reduce an unbounded integer to 32-bit two's complement. */
  function Wrap32(x: int): (r: int)
    ensures -0x8000_0000 <= r < 0x8000_0000
    ensures (r - x) % 0x1_0000_0000 == 0
  {
    var m := x % 0x1_0000_0000;
    if m < 0x8000_0000 then m else m - 0x1_0000_0000
  }

  class Node<T(==)> {
    /** The value, fixed at construction in this model. */
    const value: T
    var edges: seq<Node<T>>
    var visited: bool
    var parent: Node?<T>

    constructor (value: T)
      ensures this.value == value
      ensures edges == [] && !visited && parent == null
    {
      this.value := value;
      edges := [];
      visited := false;
      parent := null;
    }

    method GetEdges() returns (r: seq<Node<T>>)
      ensures r == edges
    {
      r := edges;
    }

    /** Appends one neighbour: no duplicate check and no reverse edge. */
    method AddEdge(neighbour: Node<T>)
      modifies this`edges
      ensures edges == old(edges) + [neighbour]
      ensures visited == old(visited) && parent == old(parent)
    {
      edges := edges + [neighbour];
    }

    method SetParent(p: Node?<T>)
      modifies this`parent
      ensures parent == p
      ensures edges == old(edges) && visited == old(visited)
    {
      parent := p;
    }

    method GetParent() returns (p: Node?<T>)
      ensures p == parent
    {
      p := parent;
    }

    method SetVisited(isVisited: bool)
      modifies this`visited
      ensures visited == isVisited
      ensures edges == old(edges) && parent == old(parent)
    {
      visited := isVisited;
    }

    method IsVisited() returns (b: bool)
      ensures b == visited
    {
      b := visited;
    }

    /** Value equality; a null argument is never equal. */
    predicate Equals(o: Node?<T>): (b: bool)
      ensures b <==> o != null && o.value == value
    {
      o == this || (o != null && value == o.value)
    }

    /**
     * `Objects.hash(value)` is `31 * 1 + h(value)` in 32-bit arithmetic,
     * where `valueHash` stands for the value type's own hash.
     */
    function HashCode(valueHash: T -> int): (r: int)
      ensures -0x8000_0000 <= r < 0x8000_0000
      ensures (r - 31 - valueHash(value)) % 0x1_0000_0000 == 0
    {
      Wrap32(31 + valueHash(value))
    }
  }

  lemma EqualsReflexive<T>(a: Node<T>)
    ensures a.Equals(a)
  {
  }

  lemma EqualsSymmetric<T>(a: Node<T>, b: Node<T>)
    ensures a.Equals(b) <==> b.Equals(a)
  {
  }

  lemma EqualsTransitive<T>(a: Node<T>, b: Node<T>, c: Node<T>)
    requires a.Equals(b) && b.Equals(c)
    ensures a.Equals(c)
  {
  }

  /** Equal nodes hash alike, whatever the value type's hash is. */
  lemma EqualNodesHashAlike<T>(a: Node<T>, b: Node<T>, valueHash: T -> int)
    requires a.Equals(b)
    ensures a.HashCode(valueHash) == b.HashCode(valueHash)
  {
  }
}
