/**
 * The graph as the search sees it: node `i` is the `i`-th listed node, `values[i]`
 * its value and `adj[i]` the positions of its neighbours in edge order. A parent
 * link is a position, with -1 standing for a null parent.
 */
module Paths {

  const NoParent: int := -1

  datatype IndexedGraph<T> = IndexedGraph(values: seq<T>, adj: seq<seq<nat>>)
  {
    /** Every edge target is a listed node. */
    ghost predicate WellFormed() {
      |values| == |adj| &&
      forall u, j :: 0 <= u < |adj| && 0 <= j < |adj[u]| ==> adj[u][j] < |adj|
    }

    function Size(): nat { |values| }
  }

  /** `p` lists nodes joined by edges: each next node is in the previous node's adjacency list. */
  ghost predicate IsPath(adj: seq<seq<nat>>, p: seq<nat>)
  {
    |p| >= 1 &&
    (forall i :: 0 <= i < |p| ==> p[i] < |adj|) &&
    (forall i :: 0 <= i < |p| - 1 ==> p[i + 1] in adj[p[i]])
  }

  ghost predicate PathFromTo(adj: seq<seq<nat>>, p: seq<nat>, s: nat, e: nat)
  {
    IsPath(adj, p) && p[0] == s && p[|p| - 1] == e
  }

  ghost predicate Reachable(adj: seq<seq<nat>>, s: nat, e: nat)
  {
    exists p :: PathFromTo(adj, p, s, e)
  }

  /** A path from `s` to `e` with no more edges than any other. */
  ghost predicate IsShortest(adj: seq<seq<nat>>, p: seq<nat>, s: nat, e: nat)
  {
    PathFromTo(adj, p, s, e) &&
    forall q :: PathFromTo(adj, q, s, e) ==> |p| <= |q|
  }

  function Reverse<X>(xs: seq<X>): (r: seq<X>)
    ensures |r| == |xs|
    ensures forall i :: 0 <= i < |xs| ==> r[i] == xs[|xs| - 1 - i]
  {
    if xs == [] then [] else [xs[|xs| - 1]] + Reverse(xs[..|xs| - 1])
  }

  /** Values at the given positions, in the same order. */
  function ValuesAt<T>(values: seq<T>, p: seq<nat>): (r: seq<T>)
    requires forall i :: 0 <= i < |p| ==> p[i] < |values|
    ensures |r| == |p| && forall i :: 0 <= i < |p| ==> r[i] == values[p[i]]
  {
    seq(|p|, i requires 0 <= i < |p| => values[p[i]])
  }

  /** How many of the positions in `p` carry a value in `category`. */
  function CountIn<T(==)>(values: seq<T>, p: seq<nat>, category: set<T>): (r: nat)
    requires forall i :: 0 <= i < |p| ==> p[i] < |values|
    ensures r <= |p|
  {
    if p == [] then 0
    else CountIn(values, p[..|p| - 1], category) + (if values[p[|p| - 1]] in category then 1 else 0)
  }

  lemma {:induction false} CountInAppend<T>(values: seq<T>, a: seq<nat>, b: seq<nat>, category: set<T>)
    requires forall i :: 0 <= i < |a| ==> a[i] < |values|
    requires forall i :: 0 <= i < |b| ==> b[i] < |values|
    ensures CountIn(values, a + b, category) == CountIn(values, a, category) + CountIn(values, b, category)
    decreases |b|
  {
    if b != [] {
      assert (a + b)[..|a + b| - 1] == a + b[..|b| - 1];
      CountInAppend(values, a, b[..|b| - 1], category);
    } else {
      assert a + b == a;
    }
  }

  /** The count does not depend on the direction the positions are read in. */
  lemma {:induction false} CountInReverse<T>(values: seq<T>, p: seq<nat>, category: set<T>)
    requires forall i :: 0 <= i < |p| ==> p[i] < |values|
    ensures CountIn(values, Reverse(p), category) == CountIn(values, p, category)
    decreases |p|
  {
    if p != [] {
      var last := p[|p| - 1];
      var init := p[..|p| - 1];
      CountInReverse(values, init, category);
      assert Reverse(p) == [last] + Reverse(init);
      CountInAppend(values, [last], Reverse(init), category);
      assert [last][..0] == [];
    }
  }

  /** Parent links lead to a node ranked exactly one lower, so following them always stops. */
  ghost predicate RankedLinks(parent: seq<int>, rank: seq<nat>)
  {
    |rank| == |parent| &&
    forall v :: 0 <= v < |parent| && parent[v] != NoParent ==>
      0 <= parent[v] < |parent| && rank[v] == rank[parent[v]] + 1
  }

  /** The nodes met by following parent links from `v`, starting with `v` and ending at a node without parent. */
  ghost function Chain(parent: seq<int>, rank: seq<nat>, v: nat): (c: seq<nat>)
    requires RankedLinks(parent, rank) && v < |parent|
    ensures |c| >= 1 && c[0] == v
    ensures forall i :: 0 <= i < |c| ==> c[i] < |parent| && rank[c[i]] + i == rank[v]
    ensures parent[c[|c| - 1]] == NoParent
    ensures forall i :: 0 <= i < |c| - 1 ==> parent[c[i]] == c[i + 1]
    decreases rank[v]
  {
    if parent[v] == NoParent then [v] else [v] + Chain(parent, rank, parent[v])
  }

  /** A parent chain never repeats a node. */
  lemma ChainDistinct(parent: seq<int>, rank: seq<nat>, v: nat)
    requires RankedLinks(parent, rank) && v < |parent|
    ensures var c := Chain(parent, rank, v);
      forall i, j :: 0 <= i < j < |c| ==> c[i] != c[j]
  {
  }
}
