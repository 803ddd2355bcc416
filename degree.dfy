/**
 * The two queries built on the search: the degree of separation (how many nodes
 * of a category lie on the path) and the path itself.
 */
module Degree {
  import opened Paths
  import opened Search
  import opened SearchFacts
  import opened Render

  /**
   * The walk up the parent links at the heart of `getMinimalDegree`: counts the
   * nodes above `e` on its chain whose value is in `movieSet`.
   */
  method CountChain<T(==)>(values: seq<T>, parent: array<int>, e: nat, movieSet: set<T>, ghost dist: seq<nat>)
    returns (degree: nat)
    requires RankedLinks(parent[..], dist) && e < parent.Length && parent.Length <= |values|
    ensures degree == CountIn(values, Chain(parent[..], dist, e)[1..], movieSet)
  {
    ghost var links := parent[..];
    var current: int := e;
    degree := 0;
    while parent[current] != NoParent
      invariant 0 <= current < parent.Length
      invariant degree + CountAbove(values, links, dist, current, movieSet) ==
                CountAbove(values, links, dist, e, movieSet)
      decreases dist[current]
    {
      var up := parent[current];
      if values[up] in movieSet {
        degree := degree + 1;
      }
      current := up;
    }
    CountAboveIsCountIn(values, links, dist, e, movieSet);
  }

  /** How many nodes above `v` on its parent chain carry a value in `category`. */
  ghost function CountAbove<T>(values: seq<T>, parent: seq<int>, dist: seq<nat>, v: nat, category: set<T>): nat
    requires RankedLinks(parent, dist) && v < |parent| <= |values|
    decreases dist[v]
  {
    if parent[v] == NoParent then 0
    else (if values[parent[v]] in category then 1 else 0) + CountAbove(values, parent, dist, parent[v], category)
  }

  lemma {:induction false} CountAboveIsCountIn<T>(values: seq<T>, parent: seq<int>, dist: seq<nat>, v: nat, category: set<T>)
    requires RankedLinks(parent, dist) && v < |parent| <= |values|
    ensures CountAbove(values, parent, dist, v, category) == CountIn(values, Chain(parent, dist, v)[1..], category)
    decreases dist[v]
  {
    if parent[v] != NoParent {
      var up := parent[v];
      CountAboveIsCountIn(values, parent, dist, up, category);
      var rest := Chain(parent, dist, up);
      assert Chain(parent, dist, v)[1..] == rest;
      assert rest == [up] + rest[1..];
      CountInAppend(values, [up], rest[1..], category);
      assert [up][..0] == [];
    }
  }

  /** The push loop of `getDegreeString`: the values on the chain of `e`, `e`'s own first. */
  method PushChain<T>(values: seq<T>, parent: array<int>, e: nat, ghost dist: seq<nat>)
    returns (stack: seq<T>)
    requires RankedLinks(parent[..], dist) && e < parent.Length && parent.Length <= |values|
    ensures stack == ValuesAt(values, Chain(parent[..], dist, e))
  {
    ghost var c := Chain(parent[..], dist, e);
    ghost var k := 0;
    var current := e;
    stack := [];
    while parent[current] != NoParent
      invariant 0 <= k < |c| && c[k] == current
      invariant k == |c| - 1 || parent[current] == c[k + 1]
      invariant stack == ValuesAt(values, c[..k])
      decreases |c| - k
    {
      stack := stack + [values[current]];
      current := parent[current];
      k := k + 1;
    }
    stack := stack + [values[current]];
    assert c[..k + 1] == c;
  }

  /** The pop loop of `getDegreeString`: the stack's contents, last pushed first. */
  method PopAll<T>(stack: seq<T>) returns (r: seq<T>)
    ensures r == Reverse(stack)
  {
    var rest := stack;
    r := [];
    while rest != []
      invariant r + Reverse(rest) == Reverse(stack)
    {
      r := r + [rest[|rest| - 1]];
      rest := rest[..|rest| - 1];
    }
  }

  /**
   * `getMinimalDegree`: -1 when an argument is null; otherwise the number of nodes
   * on the path found, the end excluded and the start included, whose value is in
   * `movieSet`; 0 when the end is unreachable. `getMinimalDegree` loops forever when the
   * start is the end, so that case is excluded here (see `SelfLinkNeverEnds`).
   */
  method GetMinimalDegree<T(==)>(g: Option<IndexedGraph<T>>, movieSet: set<T>,
                                 visited: array<bool>, parent: array<int>,
                                 start: Option<nat>, end: Option<nat>)
    returns (r: int, ghost path: seq<nat>, ghost dist: seq<nat>)
    requires Fits(g, visited.Length, parent.Length, start, end)
    requires AllPresent(g, start, end) ==> start != end
    modifies visited, parent
    ensures AllPresent(g, start, end) ==>
      RankedLinks(parent[..], dist) && end.value < parent.Length &&
      path == Reverse(Chain(parent[..], dist, end.value))
    ensures !AllPresent(g, start, end) ==>
      r == -1 && visited[..] == old(visited[..]) && parent[..] == old(parent[..])
    ensures AllPresent(g, start, end) && !Reachable(g.value.adj, start.value, end.value) ==> r == 0
    ensures AllPresent(g, start, end) && Reachable(g.value.adj, start.value, end.value) ==>
      IsShortest(g.value.adj, path, start.value, end.value) &&
      r == CountIn(g.value.values, path[..|path| - 1], movieSet)
  {
    var node, d, offered := ShortestPath(g, visited, parent, start, end);
    dist := d;
    if node.None? {
      return -1, [], [];
    }
    var values, s, e := g.value.values, start.value, end.value;
    SearchOutcome(g.value.adj, s, e, visited[..], parent[..], dist);
    r := CountChain(values, parent, e, movieSet, dist);
    path := Reverse(Chain(parent[..], dist, e));
    DegreeOutcome(values, parent[..], dist, e, movieSet, r);
  }

  /** What the count over the chain above the end means for the path from the start. */
  lemma DegreeOutcome<T>(values: seq<T>, parent: seq<int>, dist: seq<nat>, e: nat, movieSet: set<T>, degree: nat)
    requires RankedLinks(parent, dist) && e < |parent| <= |values|
    requires degree == CountIn(values, Chain(parent, dist, e)[1..], movieSet)
    ensures Chain(parent, dist, e) == [e] ==> degree == 0
    ensures var path := Reverse(Chain(parent, dist, e));
      degree == CountIn(values, path[..|path| - 1], movieSet)
  {
    var c := Chain(parent, dist, e);
    CountAboveEnd(values, c, movieSet);
    if c == [e] {
      assert c[1..] == [];
    }
  }

  /** Counting the chain above the end equals counting the path from the start with the end left off. */
  lemma CountAboveEnd<T>(values: seq<T>, c: seq<nat>, movieSet: set<T>)
    requires |c| >= 1 && forall i :: 0 <= i < |c| ==> c[i] < |values|
    ensures CountIn(values, c[1..], movieSet) == CountIn(values, Reverse(c)[..|c| - 1], movieSet)
  {
    CountInReverse(values, c[1..], movieSet);
    assert Reverse(c[1..]) == Reverse(c)[..|c| - 1];
  }

  /**
   * `getDegreeString`, before rendering: the values along the path found, start
   * first. Empty when an argument is null, when the start is the end, and when
   * the end is one edge from the start; only the end's value when it is unreachable.
   */
  method GetDegreeString<T>(g: Option<IndexedGraph<T>>, visited: array<bool>, parent: array<int>,
                            start: Option<nat>, end: Option<nat>)
    returns (r: seq<T>, ghost path: seq<nat>, ghost dist: seq<nat>)
    requires Fits(g, visited.Length, parent.Length, start, end)
    modifies visited, parent
    ensures AllPresent(g, start, end) && start != end ==>
      RankedLinks(parent[..], dist) && end.value < parent.Length &&
      path == Reverse(Chain(parent[..], dist, end.value))
    ensures !AllPresent(g, start, end) ==>
      r == [] && visited[..] == old(visited[..]) && parent[..] == old(parent[..])
    ensures AllPresent(g, start, end) && start == end ==> r == []
    ensures AllPresent(g, start, end) && start != end && !Reachable(g.value.adj, start.value, end.value) ==>
      r == [g.value.values[end.value]]
    ensures AllPresent(g, start, end) && start != end && Reachable(g.value.adj, start.value, end.value) ==>
      IsShortest(g.value.adj, path, start.value, end.value) &&
      r == if |path| == 2 then [] else ValuesAt(g.value.values, path)
  {
    var returnNode, d, offered := ShortestPath(g, visited, parent, start, end);
    dist := d;
    if returnNode.None? {
      return [], [], [];
    }
    var values, s, e := g.value.values, start.value, end.value;
    path := [];
    if s == e {
      assert parent[e] == s;
    } else {
      SearchOutcome(g.value.adj, s, e, visited[..], parent[..], dist);
    }
    var stack: seq<T> := [];
    if parent[e] != s {
      stack := PushChain(values, parent, e, dist);
    }
    r := PopAll(stack);
    if s != e {
      path := Reverse(Chain(parent[..], dist, e));
      PathValuesOutcome(g.value.adj, values, s, e, visited[..], parent[..], dist, stack, r);
    }
  }

  /** What the popped stack means once the search is over. */
  lemma PathValuesOutcome<T>(adj: seq<seq<nat>>, values: seq<T>, s: nat, e: nat, visited: seq<bool>,
                             parent: seq<int>, dist: seq<nat>, stack: seq<T>, r: seq<T>)
    requires Searched(adj, s, e, visited, parent, dist) && e < |adj| && s != e && |values| == |adj|
    requires RankedLinks(parent, dist) && |parent| == |adj|
    requires parent[e] == s ==> stack == []
    requires parent[e] != s ==> stack == ValuesAt(values, Chain(parent, dist, e))
    requires r == Reverse(stack)
    ensures !Reachable(adj, s, e) ==> r == [values[e]]
    ensures Reachable(adj, s, e) ==>
      var path := Reverse(Chain(parent, dist, e));
      IsShortest(adj, path, s, e) && r == if |path| == 2 then [] else ValuesAt(values, path)
  {
    SearchOutcome(adj, s, e, visited, parent, dist);
    var c := Chain(parent, dist, e);
    if parent[e] != s {
      ValuesAtReverse(values, c);
    }
  }

  lemma ValuesAtReverse<T>(values: seq<T>, p: seq<nat>)
    requires forall i :: 0 <= i < |p| ==> p[i] < |values|
    ensures Reverse(ValuesAt(values, p)) == ValuesAt(values, Reverse(p))
  {
  }

  /**
   * `getDegreeString` for string values: the path found, rendered with " -> ".
   * A one-edge path renders as the empty string, an unreachable end as its own value.
   */
  method DegreeString(g: Option<IndexedGraph<string>>, visited: array<bool>, parent: array<int>,
                      start: Option<nat>, end: Option<nat>)
    returns (r: string, ghost path: seq<nat>, ghost dist: seq<nat>)
    requires Fits(g, visited.Length, parent.Length, start, end)
    modifies visited, parent
    ensures AllPresent(g, start, end) && start != end ==>
      RankedLinks(parent[..], dist) && end.value < parent.Length &&
      path == Reverse(Chain(parent[..], dist, end.value))
    ensures !AllPresent(g, start, end) ==>
      r == "" && visited[..] == old(visited[..]) && parent[..] == old(parent[..])
    ensures AllPresent(g, start, end) && start == end ==> r == ""
    ensures AllPresent(g, start, end) && start != end && !Reachable(g.value.adj, start.value, end.value) ==>
      r == g.value.values[end.value]
    ensures AllPresent(g, start, end) && start != end && Reachable(g.value.adj, start.value, end.value) ==>
      IsShortest(g.value.adj, path, start.value, end.value) &&
      r == if |path| == 2 then "" else Join(ValuesAt(g.value.values, path))
  {
    var parts;
    parts, path, dist := GetDegreeString(g, visited, parent, start, end);
    r := Join(parts);
  }
}

/** Facts about the degree count and the start-equals-end case. */
module DegreeFacts {
  import opened Paths

  /** Every edge joins a node whose value is in the category to one whose value is not. */
  ghost predicate Bipartite<T>(g: IndexedGraph<T>, category: set<T>)
  {
    |g.values| == |g.adj| &&
    forall u, j :: 0 <= u < |g.adj| && 0 <= j < |g.adj[u]| && g.adj[u][j] < |g.values| ==>
      (g.values[u] in category <==> g.values[g.adj[u][j]] !in category)
  }

  /**
   * On a path that starts outside the category of a two-sided graph the category
   * nodes alternate, so the count over all nodes but the last is half the number
   * of edges: between two actors, the number of movies is half the distance.
   */
  lemma {:induction false} AlternatingCount<T>(g: IndexedGraph<T>, category: set<T>, p: seq<nat>)
    requires Bipartite(g, category) && IsPath(g.adj, p) && g.values[p[0]] !in category
    ensures CountIn(g.values, p[..|p| - 1], category) == (|p| - 1) / 2
    ensures g.values[p[|p| - 1]] in category <==> (|p| - 1) % 2 == 1
    decreases |p|
  {
    if |p| > 1 {
      var q := p[..|p| - 1];
      assert IsPath(g.adj, q);
      AlternatingCount(g, category, q);
      assert q[..|q| - 1] == p[..|p| - 2];
      var u, w := p[|p| - 2], p[|p| - 1];
      var j :| 0 <= j < |g.adj[u]| && g.adj[u][j] == w;
    } else {
      assert p[..0] == [];
    }
  }

  /** `k` steps up the parent links from `v`; NoParent once a node without parent is passed. */
  ghost function Follow(parent: seq<int>, v: nat, k: nat): (r: int)
    requires v < |parent|
    requires forall u :: 0 <= u < |parent| ==> parent[u] == NoParent || 0 <= parent[u] < |parent|
    ensures r == NoParent || 0 <= r < |parent|
    decreases k
  {
    if k == 0 then v
    else if parent[v] == NoParent then NoParent
    else Follow(parent, parent[v], k - 1)
  }

  /**
   * When the start is the end the search links the end to itself, so the walk up
   * the parent links in `getMinimalDegree` never meets a null parent: it does not stop.
   */
  lemma {:induction false} SelfLinkNeverEnds(parent: seq<int>, e: nat, k: nat)
    requires e < |parent| && parent[e] == e
    requires forall u :: 0 <= u < |parent| ==> parent[u] == NoParent || 0 <= parent[u] < |parent|
    ensures Follow(parent, e, k) == e
    decreases k
  {
    if k > 0 {
      SelfLinkNeverEnds(parent, e, k - 1);
    }
  }
}
