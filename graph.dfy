/**
 * The graph: an insertion-ordered node list plus a value-to-node index that
 * `AddNode` keeps in step with the list (the last node added for a value wins).
 */
module Graphs {
  import opened Nodes

  /** Position of the most recently listed node carrying `v`, or -1 when no listed node carries it. */
  function LastIndex<T(==)>(ns: seq<Node<T>>, v: T): (i: int)
    ensures -1 <= i < |ns|
    ensures i >= 0 ==> ns[i].value == v
    ensures forall j :: i < j < |ns| ==> ns[j].value != v
    decreases |ns|
  {
    if ns == [] then -1
    else if ns[|ns| - 1].value == v then |ns| - 1
    else LastIndex(ns[..|ns| - 1], v)
  }

  /** The most recently listed node carrying `v`, or null when no listed node carries it. */
  function LastWithValue<T(==)>(ns: seq<Node<T>>, v: T): (r: Node?<T>)
    ensures r == null <==> forall i :: 0 <= i < |ns| ==> ns[i].value != v
    ensures r != null ==>
      exists i :: 0 <= i < |ns| && ns[i] == r && r.value == v &&
        forall j :: i < j < |ns| ==> ns[j].value != v
  {
    var i := LastIndex(ns, v);
    if i < 0 then null else ns[i]
  }

  /** Element-by-element list equality, each pair compared with `Node.Equals`. */
  function ListEquals<T(==)>(a: seq<Node<T>>, b: seq<Node<T>>): (r: bool)
    ensures r ==> |a| == |b|
    decreases |a|
  {
    if a == [] || b == [] then a == [] && b == []
    else a[0].Equals(b[0]) && ListEquals(a[1..], b[1..])
  }

  /** Two node lists are equal exactly when they have the same length and the same values in order. */
  lemma {:induction false} ListEqualsIffSameValues<T>(a: seq<Node<T>>, b: seq<Node<T>>)
    ensures ListEquals(a, b) <==>
      |a| == |b| && forall i :: 0 <= i < |a| ==> a[i].value == b[i].value
    decreases |a|
  {
    if a != [] && b != [] {
      ListEqualsIffSameValues(a[1..], b[1..]);
      if |a| == |b| && forall i :: 0 <= i < |a| ==> a[i].value == b[i].value {
        assert forall i :: 0 <= i < |a| - 1 ==> a[1..][i].value == b[1..][i].value by {
          forall i | 0 <= i < |a| - 1 ensures a[1..][i].value == b[1..][i].value {
            assert a[1..][i] == a[i + 1] && b[1..][i] == b[i + 1];
          }
        }
      }
      if ListEquals(a, b) {
        forall i | 0 <= i < |a| ensures a[i].value == b[i].value {
          if i > 0 {
            assert a[1..][i - 1] == a[i] && b[1..][i - 1] == b[i];
          }
        }
      }
    }
  }

  class Graph<T(==)> {
    var nodes: seq<Node<T>>
    var index: map<T, Node<T>>

    /** Every index entry is the last listed node with its key, and every listed value is a key. */
    ghost predicate Valid()
      reads this
    {
      (forall v | v in index :: index[v] == LastWithValue(nodes, v)) &&
      (forall i | 0 <= i < |nodes| :: nodes[i].value in index)
    }

    constructor ()
      ensures Valid()
      ensures nodes == [] && index == map[]
    {
      nodes := [];
      index := map[];
    }

    /** Clears the search fields of every listed node; nothing else changes. */
    method Reset()
      modifies set i | 0 <= i < |nodes| :: nodes[i]
      ensures forall i | 0 <= i < |nodes| :: !nodes[i].visited && nodes[i].parent == null
      ensures forall i | 0 <= i < |nodes| :: nodes[i].edges == old(nodes[i].edges)
    {
      for i := 0 to |nodes|
        invariant forall k | 0 <= k < i :: !nodes[k].visited && nodes[k].parent == null
        invariant forall k | 0 <= k < |nodes| :: nodes[k].edges == old(nodes[k].edges)
      {
        nodes[i].SetParent(null);
        nodes[i].SetVisited(false);
      }
    }

    /** Appends the node (duplicates allowed) and points the index entry for its value at it. */
    method AddNode(newNode: Node<T>)
      requires Valid()
      modifies this
      ensures Valid()
      ensures nodes == old(nodes) + [newNode]
      ensures index == old(index)[newNode.value := newNode]
    {
      nodes := nodes + [newNode];
      index := index[newNode.value := newNode];
      forall v | v in index ensures index[v] == LastWithValue(nodes, v) {
        assert nodes[..|nodes| - 1] == old(nodes);
        assert LastIndex(nodes, v) == if v == newNode.value then |nodes| - 1 else LastIndex(old(nodes), v);
      }
    }

    method GetNodeList() returns (r: seq<Node<T>>)
      ensures r == nodes
    {
      r := nodes;
    }

    /** The node most recently added with value `v`, or null when there is none. */
    method GetNode(v: T) returns (r: Node?<T>)
      requires Valid()
      ensures r == LastWithValue(nodes, v)
    {
      r := if v in index then index[v] else null;
    }

    /** Graphs are equal when their node lists are equal element by element. */
    predicate Equals(o: Graph?<T>): (r: bool)
      reads this, o
      ensures r ==> o != null && |nodes| == |o.nodes|
    {
      o == this || (o != null && (nodes == o.nodes || ListEquals(nodes, o.nodes)))
    }
  }

  /** Graph equality compares the node lists' lengths and values in order, nothing else. */
  lemma GraphEqualsIffSameValues<T>(a: Graph<T>, b: Graph?<T>)
    ensures a.Equals(b) <==>
      b != null && |a.nodes| == |b.nodes| &&
      forall i :: 0 <= i < |a.nodes| ==> a.nodes[i].value == b.nodes[i].value
  {
    if b != null {
      ListEqualsIffSameValues(a.nodes, b.nodes);
    }
  }
}
