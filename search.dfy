/**
 * The breadth-first search of `shortestPath`, run on the index view of the graph.
 * `visited[i]` and `parent[i]` are the search fields of node `i`; the search
 * writes them in place. The ghost `dist` records the level at which each node
 * was discovered.
 */
module Search {
  import opened Paths

  datatype Option<X> = None | Some(value: X)

  /** Number of nodes not yet marked visited. */
  function CountFalse(s: seq<bool>): (r: nat)
    ensures r <= |s|
    ensures r == 0 <==> forall i :: 0 <= i < |s| ==> s[i]
  {
    if s == [] then 0 else CountFalse(s[..|s| - 1]) + (if s[|s| - 1] then 0 else 1)
  }

  /** Marking one unvisited node lowers the count by exactly one. */
  lemma {:induction false} CountFalseMark(s: seq<bool>, k: nat)
    requires k < |s| && !s[k]
    ensures CountFalse(s[k := true]) == CountFalse(s) - 1
    decreases |s|
  {
    if k < |s| - 1 {
      assert s[k := true][..|s| - 1] == s[..|s| - 1][k := true];
      CountFalseMark(s[..|s| - 1], k);
    } else {
      assert s[k := true][..|s| - 1] == s[..|s| - 1];
    }
  }

  /**
   * The parent links the search has written: the start is visited and has no
   * parent, every other visited node has one, and each link points at a visited
   * node, other than `e`, one level closer to the start whose edge list holds
   * the linked node.
   */
  ghost predicate Marked(adj: seq<seq<nat>>, s: nat, e: nat,
                         visited: seq<bool>, parent: seq<int>, dist: seq<nat>)
  {
    |visited| == |adj| && |parent| == |adj| && RankedLinks(parent, dist) &&
    s < |adj| && visited[s] && parent[s] == NoParent && dist[s] == 0 &&
    (forall v :: 0 <= v < |adj| && parent[v] != NoParent ==>
       visited[v] && visited[parent[v]] && parent[v] != e && v in adj[parent[v]]) &&
    (forall v :: 0 <= v < |adj| && visited[v] && v != s ==> parent[v] != NoParent)
  }

  /** Every neighbour of `u` is visited and at most one level further than `u`. */
  ghost predicate Expanded(adj: seq<seq<nat>>, visited: seq<bool>, dist: seq<nat>, u: nat)
    requires u < |adj| && |visited| == |adj| && |dist| == |adj|
  {
    forall j :: 0 <= j < |adj[u]| ==>
      adj[u][j] < |adj| && visited[adj[u][j]] && dist[adj[u][j]] <= dist[u] + 1
  }

  /** Every visited node other than `e` has been expanded. */
  ghost predicate Saturated(adj: seq<seq<nat>>, e: nat, visited: seq<bool>, dist: seq<nat>)
    requires |visited| == |adj| && |dist| == |adj|
  {
    forall u :: 0 <= u < |adj| && visited[u] && u != e ==> Expanded(adj, visited, dist, u)
  }

  /** What a finished search from `s` towards `e` leaves behind. */
  ghost predicate Searched(adj: seq<seq<nat>>, s: nat, e: nat,
                           visited: seq<bool>, parent: seq<int>, dist: seq<nat>)
  {
    Marked(adj, s, e, visited, parent, dist) && Saturated(adj, e, visited, dist)
  }

  /** The queue holds visited nodes in non-decreasing level order, none below `level`, none visited above `level + 1`. */
  ghost predicate Frontier(visited: seq<bool>, dist: seq<nat>, queue: seq<nat>, level: nat)
    requires |dist| == |visited|
  {
    (forall k :: 0 <= k < |queue| ==> queue[k] < |visited| && visited[queue[k]] && level <= dist[queue[k]]) &&
    (forall k, m :: 0 <= k <= m < |queue| ==> dist[queue[k]] <= dist[queue[m]]) &&
    (forall v :: 0 <= v < |visited| && visited[v] ==> dist[v] <= level + 1)
  }

  /** Every visited node that has left the queue has been expanded, except `e` and `except`. */
  ghost predicate Processed(adj: seq<seq<nat>>, e: nat, visited: seq<bool>, dist: seq<nat>,
                            queue: seq<nat>, except: int)
    requires |visited| == |adj| && |dist| == |adj|
  {
    forall u :: 0 <= u < |adj| && visited[u] && u !in queue && u != e && u != except ==>
      Expanded(adj, visited, dist, u)
  }

  /** `offered` lists every node ever put in the queue, each once, and they are exactly the visited ones. */
  ghost predicate Offered(visited: seq<bool>, offered: seq<nat>)
  {
    (forall i :: 0 <= i < |offered| ==> offered[i] < |visited|) &&
    (forall i, j :: 0 <= i < j < |offered| ==> offered[i] != offered[j]) &&
    (forall v :: 0 <= v < |visited| ==> (visited[v] <==> v in offered))
  }

  /**
   * The queue is the tail of the offer log: the nodes polled so far are the
   * log's head, and every node still waiting was the last ones offered.
   */
  ghost predicate QueueIsTail(queue: seq<nat>, offered: seq<nat>)
  {
    |queue| <= |offered| && offered[|offered| - |queue|..] == queue
  }

  /** Polling the head of the queue keeps it the tail of the log. */
  lemma PollKeepsTail(queue: seq<nat>, offered: seq<nat>)
    requires queue != [] && QueueIsTail(queue, offered)
    ensures QueueIsTail(queue[1..], offered)
  {
    assert offered[|offered| - |queue| + 1..] == offered[|offered| - |queue|..][1..];
  }

  /** Appending the same nodes to the queue and to the log keeps the queue the tail of the log. */
  lemma AppendKeepsTail(queue: seq<nat>, offered: seq<nat>, added: seq<nat>)
    requires QueueIsTail(queue, offered)
    ensures QueueIsTail(queue + added, offered + added)
  {
    var k := |offered| - |queue|;
    assert (offered + added)[k..] == offered[k..] + added;
  }

  /** The caller's objects fit the graph: right array sizes, listed start and end nodes. */
  ghost predicate Fits<T>(g: Option<IndexedGraph<T>>, visitedLength: nat, parentLength: nat,
                          start: Option<nat>, end: Option<nat>)
  {
    g.Some? ==>
      g.value.WellFormed() &&
      visitedLength == g.value.Size() && parentLength == g.value.Size() &&
      (start.Some? ==> start.value < g.value.Size()) &&
      (end.Some? ==> end.value < g.value.Size())
  }

  ghost predicate AllPresent<T>(g: Option<IndexedGraph<T>>, start: Option<nat>, end: Option<nat>)
  {
    g.Some? && start.Some? && end.Some?
  }

  /** `reset` on the index view: every node unvisited and without parent. */
  method ClearMarks(visited: array<bool>, parent: array<int>)
    requires visited.Length == parent.Length
    modifies visited, parent
    ensures forall v :: 0 <= v < visited.Length ==> !visited[v] && parent[v] == NoParent
  {
    for i := 0 to visited.Length
      invariant forall v :: 0 <= v < i ==> !visited[v] && parent[v] == NoParent
    {
      parent[i] := NoParent;
      visited[i] := false;
    }
  }

  /**
   * One pass of the outer `while`: the current node's edges are scanned, and the
   * search state is kept.
   */
  method Expand(adj: seq<seq<nat>>, visited: array<bool>, parent: array<int>, cur: nat,
                queue: seq<nat>, ghost s: nat, ghost e: nat, ghost dist: seq<nat>, ghost offered: seq<nat>)
    returns (queue': seq<nat>, ghost dist': seq<nat>, ghost offered': seq<nat>)
    requires cur < |adj| && visited.Length == |adj| && |dist| == |adj|
    requires Expanding(adj, s, e, visited[..], parent[..], dist, queue, offered, cur, dist[cur], 0)
    modifies visited, parent
    ensures Searching(adj, s, e, visited[..], parent[..], dist', queue', offered', dist[cur])
    ensures visited[..] == ScanVisited(old(visited[..]), adj[cur])
    ensures parent[..] == ScanParent(old(visited[..]), old(parent[..]), adj[cur], cur)
    ensures queue' == queue + ScanAdded(old(visited[..]), adj[cur])
    ensures offered' == offered + queue'[|queue|..]
    ensures Scanned(old(visited[..]), old(parent[..]), visited[..], parent[..], queue'[|queue|..], adj[cur], cur)
    ensures CountFalse(visited[..]) + |queue'| == old(CountFalse(visited[..])) + |queue|
  {
    ghost var v0, p0 := visited[..], parent[..];
    queue' := ScanEdges(visited, parent, adj[cur], cur, queue);
    dist', offered' := ScanKeepsSearching(adj, s, e, v0, p0, dist, queue, offered, cur);
    ScanEffect(v0, p0, adj[cur], cur);
    assert queue'[|queue|..] == ScanAdded(v0, adj[cur]);
  }

  /**
   * The inner `for` over the edges of `cur`: every neighbour still unvisited when
   * its edge comes up is marked visited, given `cur` as parent and appended to
   * the queue.
   */
  method ScanEdges(visited: array<bool>, parent: array<int>, edges: seq<nat>, cur: nat, queue: seq<nat>)
    returns (queue': seq<nat>)
    requires visited.Length == parent.Length && forall k :: 0 <= k < |edges| ==> edges[k] < visited.Length
    modifies visited, parent
    ensures visited[..] == ScanVisited(old(visited[..]), edges)
    ensures parent[..] == ScanParent(old(visited[..]), old(parent[..]), edges, cur)
    ensures queue' == queue + ScanAdded(old(visited[..]), edges)
    ensures CountFalse(visited[..]) + |queue'| == old(CountFalse(visited[..])) + |queue|
  {
    ghost var v0, p0 := visited[..], parent[..];
    queue' := queue;
    for j := 0 to |edges|
      invariant visited[..] == ScanVisited(v0, edges[..j])
      invariant parent[..] == ScanParent(v0, p0, edges[..j], cur)
      invariant queue' == queue + ScanAdded(v0, edges[..j])
      invariant CountFalse(visited[..]) + |queue'| == CountFalse(v0) + |queue|
    {
      var next := edges[j];
      assert edges[..j + 1][..j] == edges[..j] && edges[..j + 1][j] == next;
      if !visited[next] {
        ghost var before := visited[..];
        Visit(visited, parent, next, cur);
        CountFalseMark(before, next);
        queue' := queue' + [next];
      }
    }
    assert edges[..|edges|] == edges;
  }

  /** Scanning all edges of `cur` from a state that satisfies `Expanding` leaves a state that satisfies `Searching`. */
  lemma ScanKeepsSearching(adj: seq<seq<nat>>, s: nat, e: nat, visited: seq<bool>, parent: seq<int>,
                           dist: seq<nat>, queue: seq<nat>, offered: seq<nat>, cur: nat)
    returns (dist': seq<nat>, offered': seq<nat>)
    requires cur < |dist|
    requires Expanding(adj, s, e, visited, parent, dist, queue, offered, cur, dist[cur], 0)
    ensures Searching(adj, s, e, ScanVisited(visited, adj[cur]), ScanParent(visited, parent, adj[cur], cur),
                      dist', queue + ScanAdded(visited, adj[cur]), offered', dist[cur])
    ensures offered' == offered + ScanAdded(visited, adj[cur])
  {
    var n := |adj[cur]|;
    var v, p, d, added := ScanKeepsExpanding(adj, s, e, visited, parent, dist, queue, offered, cur, dist[cur], n);
    assert adj[cur][..n] == adj[cur];
    dist', offered' := d, offered + added;
    FinishExpanding(adj, s, e, v, p, dist', queue + added, offered', cur, dist[cur]);
  }

  /**
   * Scanning the first `j` edges of `cur` keeps the search state: the marks, links
   * and offers the scan produces, with levels `dist'`, satisfy `Expanding` at `j`.
   */
  lemma {:induction false} ScanKeepsExpanding(adj: seq<seq<nat>>, s: nat, e: nat, visited: seq<bool>,
                                              parent: seq<int>, dist: seq<nat>, queue: seq<nat>,
                                              offered: seq<nat>, cur: nat, level: nat, j: nat)
    returns (visited': seq<bool>, parent': seq<int>, dist': seq<nat>, added: seq<nat>)
    requires Expanding(adj, s, e, visited, parent, dist, queue, offered, cur, level, 0)
    requires j <= |adj[cur]|
    ensures visited' == ScanVisited(visited, adj[cur][..j])
    ensures parent' == ScanParent(visited, parent, adj[cur][..j], cur)
    ensures added == ScanAdded(visited, adj[cur][..j])
    ensures Expanding(adj, s, e, visited', parent', dist', queue + added, offered + added, cur, level, j)
    decreases j
  {
    if j == 0 {
      assert adj[cur][..0] == [];
      visited', parent', dist', added := visited, parent, dist, [];
      assert queue + added == queue && offered + added == offered;
    } else {
      var v, p, d, a := ScanKeepsExpanding(adj, s, e, visited, parent, dist, queue, offered, cur, level, j - 1);
      var E := adj[cur][..j];
      ScanSnoc(visited, parent, E, cur);
      assert E[..j - 1] == adj[cur][..j - 1] && E[j - 1] == adj[cur][j - 1];
      visited', parent', dist', added := ScanStepKeeps(adj, s, e, v, p, d, queue, offered, a, cur, level, j - 1);
    }
  }

  /** Scanning edge `j` of `cur`: an unvisited neighbour is marked, linked and offered; the search state is kept. */
  lemma ScanStepKeeps(adj: seq<seq<nat>>, s: nat, e: nat, visited: seq<bool>, parent: seq<int>,
                      dist: seq<nat>, queue: seq<nat>, offered: seq<nat>, added: seq<nat>,
                      cur: nat, level: nat, j: nat)
    returns (visited': seq<bool>, parent': seq<int>, dist': seq<nat>, added': seq<nat>)
    requires Expanding(adj, s, e, visited, parent, dist, queue + added, offered + added, cur, level, j)
    requires j < |adj[cur]|
    ensures var next := adj[cur][j];
      visited' == visited[next := true] &&
      parent' == (if visited[next] then parent else parent[next := cur]) &&
      added' == (if visited[next] then added else added + [next])
    ensures Expanding(adj, s, e, visited', parent', dist', queue + added', offered + added', cur, level, j + 1)
  {
    var next := adj[cur][j];
    if visited[next] {
      SkipStep(adj, s, e, visited, parent, dist, queue + added, offered + added, cur, level, j);
      visited', parent', dist', added' := visited, parent, dist, added;
      assert visited[next := true] == visited;
    } else {
      MarkStep(adj, s, e, visited, parent, dist, queue + added, offered + added, cur, level, j);
      visited', parent', dist', added' := visited[next := true], parent[next := cur], dist[next := level + 1], added + [next];
      assert queue + added' == (queue + added) + [next];
      assert offered + added' == (offered + added) + [next];
    }
  }

  /** The marks after scanning `edges`: every listed neighbour becomes visited. */
  ghost function ScanVisited(before: seq<bool>, edges: seq<nat>): (r: seq<bool>)
    requires forall k :: 0 <= k < |edges| ==> edges[k] < |before|
    ensures |r| == |before|
    decreases |edges|
  {
    if edges == [] then before
    else ScanVisited(before, edges[..|edges| - 1])[edges[|edges| - 1] := true]
  }

  /** The links after scanning `edges` from `cur`: a neighbour found unvisited is linked to `cur`. */
  ghost function ScanParent(before: seq<bool>, links: seq<int>, edges: seq<nat>, cur: nat): (r: seq<int>)
    requires |links| == |before| && forall k :: 0 <= k < |edges| ==> edges[k] < |before|
    ensures |r| == |links|
    decreases |edges|
  {
    if edges == [] then links
    else
      var init, next := edges[..|edges| - 1], edges[|edges| - 1];
      var p := ScanParent(before, links, init, cur);
      if ScanVisited(before, init)[next] then p else p[next := cur]
  }

  /** The nodes offered while scanning `edges`: each neighbour found unvisited, in edge order. */
  ghost function ScanAdded(before: seq<bool>, edges: seq<nat>): (r: seq<nat>)
    requires forall k :: 0 <= k < |edges| ==> edges[k] < |before|
    decreases |edges|
  {
    if edges == [] then []
    else
      var init, next := edges[..|edges| - 1], edges[|edges| - 1];
      if ScanVisited(before, init)[next] then ScanAdded(before, init) else ScanAdded(before, init) + [next]
  }

  /** One more edge: the scan of `edges` is the scan of all but its last edge, then that edge. */
  lemma ScanSnoc(before: seq<bool>, links: seq<int>, edges: seq<nat>, cur: nat)
    requires edges != [] && |links| == |before| && forall k :: 0 <= k < |edges| ==> edges[k] < |before|
    ensures var init, next := edges[..|edges| - 1], edges[|edges| - 1];
      var seen := ScanVisited(before, init)[next];
      ScanVisited(before, edges) == ScanVisited(before, init)[next := true] &&
      ScanParent(before, links, edges, cur) ==
        (if seen then ScanParent(before, links, init, cur) else ScanParent(before, links, init, cur)[next := cur]) &&
      ScanAdded(before, edges) == (if seen then ScanAdded(before, init) else ScanAdded(before, init) + [next])
  {
  }

  /**
   * What a scan does: exactly the neighbours unvisited before become visited with
   * `cur` as parent, every other mark and link stays, and the offered nodes are
   * those neighbours, each once.
   */
  lemma {:induction false} ScanEffect(before: seq<bool>, links: seq<int>, edges: seq<nat>, cur: nat)
    requires |links| == |before| && forall k :: 0 <= k < |edges| ==> edges[k] < |before|
    ensures Scanned(before, links, ScanVisited(before, edges), ScanParent(before, links, edges, cur),
                    ScanAdded(before, edges), edges, cur)
    decreases |edges|
  {
    var n := |edges|;
    if n == 0 {
      ScanStart(before, links, edges, cur);
      assert edges[..0] == edges;
    } else {
      var init := edges[..n - 1];
      ScanEffect(before, links, init, cur);
      assert edges[..n] == edges;
      if ScanVisited(before, init)[edges[n - 1]] {
        ScanSkip(before, links, ScanVisited(before, init), ScanParent(before, links, init, cur),
                 ScanAdded(before, init), edges, n - 1, cur);
      } else {
        ScanMark(before, links, ScanVisited(before, init), ScanParent(before, links, init, cur),
                 ScanAdded(before, init), edges, n - 1, cur);
      }
    }
  }

  /**
   * The effect of scanning `edges` from node `cur`, against the marks `before`
   * and links `links` found at the start: exactly the neighbours unvisited before
   * are now visited with `cur` as parent, every other mark and link is as it was,
   * and `added` lists those neighbours, each once.
   */
  ghost predicate Scanned(before: seq<bool>, links: seq<int>, visited: seq<bool>, parent: seq<int>,
                          added: seq<nat>, edges: seq<nat>, cur: nat)
  {
    |visited| == |before| && |links| == |before| && |parent| == |before| &&
    (forall v :: 0 <= v < |before| ==> visited[v] == (before[v] || v in edges)) &&
    (forall v :: 0 <= v < |before| ==> parent[v] == if !before[v] && v in edges then cur else links[v]) &&
    (forall i :: 0 <= i < |added| ==> added[i] < |before| && !before[added[i]] && added[i] in edges) &&
    (forall v :: 0 <= v < |before| && !before[v] && v in edges ==> v in added) &&
    (forall i, k :: 0 <= i < k < |added| ==> added[i] != added[k])
  }

  lemma ScanStart(before: seq<bool>, links: seq<int>, edges: seq<nat>, cur: nat)
    requires |links| == |before|
    ensures Scanned(before, links, before, links, [], edges[..0], cur)
  {
  }

  lemma ScanMark(before: seq<bool>, links: seq<int>, visited: seq<bool>, parent: seq<int>,
                 added: seq<nat>, edges: seq<nat>, j: nat, cur: nat)
    requires j < |edges| && edges[j] < |visited| && !visited[edges[j]]
    requires Scanned(before, links, visited, parent, added, edges[..j], cur)
    ensures Scanned(before, links, visited[edges[j] := true], parent[edges[j] := cur], added + [edges[j]],
                    edges[..j + 1], cur)
  {
    assert edges[..j + 1] == edges[..j] + [edges[j]];
  }

  lemma ScanSkip(before: seq<bool>, links: seq<int>, visited: seq<bool>, parent: seq<int>,
                 added: seq<nat>, edges: seq<nat>, j: nat, cur: nat)
    requires j < |edges| && edges[j] < |visited| && visited[edges[j]]
    requires Scanned(before, links, visited, parent, added, edges[..j], cur)
    ensures Scanned(before, links, visited, parent, added, edges[..j + 1], cur)
  {
    assert edges[..j + 1] == edges[..j] + [edges[j]];
  }

  /** Marks `next` visited with `cur` as its parent. */
  method Visit(visited: array<bool>, parent: array<int>, next: nat, cur: nat)
    requires next < visited.Length && next < parent.Length
    modifies visited, parent
    ensures visited[..] == old(visited[..])[next := true]
    ensures parent[..] == old(parent[..])[next := cur]
  {
    visited[next] := true;
    parent[next] := cur;
  }

  /** The state while the edges of `cur` are scanned, the first `j` of them done. */
  ghost predicate Expanding(adj: seq<seq<nat>>, s: nat, e: nat, visited: seq<bool>, parent: seq<int>,
                            dist: seq<nat>, queue: seq<nat>, offered: seq<nat>, cur: nat, level: nat, j: nat)
  {
    (forall u, k :: 0 <= u < |adj| && 0 <= k < |adj[u]| ==> adj[u][k] < |adj|) &&
    Marked(adj, s, e, visited, parent, dist) &&
    cur < |adj| && cur != e && visited[cur] && dist[cur] == level && j <= |adj[cur]| &&
    Frontier(visited, dist, queue, level) &&
    Processed(adj, e, visited, dist, queue, cur) &&
    Offered(visited, offered) &&
    Seen(visited, dist, adj[cur], j, level)
  }

  lemma MarkStep(adj: seq<seq<nat>>, s: nat, e: nat, visited: seq<bool>, parent: seq<int>,
                 dist: seq<nat>, queue: seq<nat>, offered: seq<nat>, cur: nat, level: nat, j: nat)
    requires Expanding(adj, s, e, visited, parent, dist, queue, offered, cur, level, j)
    requires j < |adj[cur]| && !visited[adj[cur][j]]
    ensures var next := adj[cur][j];
      Expanding(adj, s, e, visited[next := true], parent[next := cur], dist[next := level + 1],
                queue + [next], offered + [next], cur, level, j + 1)
  {
    var next := adj[cur][j];
    MarkKeepsMarked(adj, s, e, visited, parent, dist, cur, next);
    MarkKeepsFrontier(visited, dist, queue, level, next);
    MarkKeepsProcessed(adj, e, visited, dist, queue, cur, next, level);
    MarkKeepsSeen(visited, dist, adj[cur], j, level);
    var o' := offered + [next];
    assert next !in offered;
    forall v | 0 <= v < |visited| ensures (visited[next := true][v] <==> v in o') {
      assert v in offered ==> v in o';
    }
  }

  lemma SkipStep(adj: seq<seq<nat>>, s: nat, e: nat, visited: seq<bool>, parent: seq<int>,
                 dist: seq<nat>, queue: seq<nat>, offered: seq<nat>, cur: nat, level: nat, j: nat)
    requires Expanding(adj, s, e, visited, parent, dist, queue, offered, cur, level, j)
    requires j < |adj[cur]| && visited[adj[cur][j]]
    ensures Expanding(adj, s, e, visited, parent, dist, queue, offered, cur, level, j + 1)
  {
    SeenStep(visited, dist, adj[cur], j, level);
  }

  /** The first `j` edges of the current node lead to visited nodes at most one level further. */
  ghost predicate Seen(visited: seq<bool>, dist: seq<nat>, edges: seq<nat>, j: nat, level: nat)
    requires j <= |edges|
  {
    forall k :: 0 <= k < j ==>
      edges[k] < |visited| && edges[k] < |dist| && visited[edges[k]] && dist[edges[k]] <= level + 1
  }

  lemma MarkKeepsSeen(visited: seq<bool>, dist: seq<nat>, edges: seq<nat>, j: nat, level: nat)
    requires j < |edges| && edges[j] < |visited| && edges[j] < |dist| && !visited[edges[j]]
    requires Seen(visited, dist, edges, j, level)
    ensures Seen(visited[edges[j] := true], dist[edges[j] := level + 1], edges, j + 1, level)
  {
  }

  lemma SeenStep(visited: seq<bool>, dist: seq<nat>, edges: seq<nat>, j: nat, level: nat)
    requires j < |edges| && edges[j] < |visited| && |dist| == |visited| && visited[edges[j]]
    requires Seen(visited, dist, edges, j, level)
    requires forall v :: 0 <= v < |visited| && visited[v] ==> dist[v] <= level + 1
    ensures Seen(visited, dist, edges, j + 1, level)
  {
  }

  lemma MarkKeepsMarked(adj: seq<seq<nat>>, s: nat, e: nat, visited: seq<bool>, parent: seq<int>,
                        dist: seq<nat>, cur: nat, next: nat)
    requires Marked(adj, s, e, visited, parent, dist)
    requires cur < |adj| && cur != e && visited[cur] && next < |adj| && !visited[next] && next in adj[cur]
    ensures Marked(adj, s, e, visited[next := true], parent[next := cur], dist[next := dist[cur] + 1])
  {
    var v', p', d' := visited[next := true], parent[next := cur], dist[next := dist[cur] + 1];
    forall v | 0 <= v < |p'| && p'[v] != NoParent
      ensures 0 <= p'[v] < |p'| && d'[v] == d'[p'[v]] + 1
    {
      if v != next {
        assert parent[v] != next;
      }
    }
  }

  lemma MarkKeepsFrontier(visited: seq<bool>, dist: seq<nat>, queue: seq<nat>, level: nat, next: nat)
    requires |dist| == |visited| && next < |visited| && !visited[next]
    requires Frontier(visited, dist, queue, level)
    ensures Frontier(visited[next := true], dist[next := level + 1], queue + [next], level)
  {
    var v', d', q' := visited[next := true], dist[next := level + 1], queue + [next];
    forall k | 0 <= k < |queue| ensures queue[k] != next && q'[k] == queue[k] {
    }
  }

  lemma MarkKeepsProcessed(adj: seq<seq<nat>>, e: nat, visited: seq<bool>, dist: seq<nat>,
                           queue: seq<nat>, cur: nat, next: nat, level: nat)
    requires |visited| == |adj| && |dist| == |adj| && next < |adj| && !visited[next]
    requires Processed(adj, e, visited, dist, queue, cur)
    ensures Processed(adj, e, visited[next := true], dist[next := level + 1], queue + [next], cur)
  {
    var v', d', q' := visited[next := true], dist[next := level + 1], queue + [next];
    forall u | 0 <= u < |adj| && v'[u] && u !in q' && u != e && u != cur
      ensures Expanded(adj, v', d', u)
    {
      assert u != next && u !in queue;
      assert Expanded(adj, visited, dist, u);
    }
  }

  lemma FinishExpanding(adj: seq<seq<nat>>, s: nat, e: nat, visited: seq<bool>, parent: seq<int>,
                        dist: seq<nat>, queue: seq<nat>, offered: seq<nat>, cur: nat, level: nat)
    requires cur < |adj| && Expanding(adj, s, e, visited, parent, dist, queue, offered, cur, level, |adj[cur]|)
    ensures Searching(adj, s, e, visited, parent, dist, queue, offered, level)
  {
    assert Expanded(adj, visited, dist, cur);
  }

  /** The state between two polls of the queue. */
  ghost predicate Searching(adj: seq<seq<nat>>, s: nat, e: nat, visited: seq<bool>, parent: seq<int>,
                            dist: seq<nat>, queue: seq<nat>, offered: seq<nat>, level: nat)
  {
    (forall u, k :: 0 <= u < |adj| && 0 <= k < |adj[u]| ==> adj[u][k] < |adj|) &&
    Marked(adj, s, e, visited, parent, dist) &&
    Frontier(visited, dist, queue, level) &&
    Processed(adj, e, visited, dist, queue, NoParent) &&
    Offered(visited, offered)
  }

  lemma StartSearch(adj: seq<seq<nat>>, s: nat, e: nat, visited: seq<bool>, parent: seq<int>, dist: seq<nat>)
    requires forall u, k :: 0 <= u < |adj| && 0 <= k < |adj[u]| ==> adj[u][k] < |adj|
    requires s < |adj| && |visited| == |adj| && |parent| == |adj| && |dist| == |adj|
    requires forall v :: 0 <= v < |adj| ==> visited[v] == (v == s) && parent[v] == NoParent && dist[v] == 0
    ensures Searching(adj, s, e, visited, parent, dist, [s], [s], 0)
  {
  }

  /** Taking the head off the queue: the rest is still in order, and the head is expanded next unless it is `e`. */
  lemma PollStep(adj: seq<seq<nat>>, s: nat, e: nat, visited: seq<bool>, parent: seq<int>,
                 dist: seq<nat>, queue: seq<nat>, offered: seq<nat>, level: nat)
    requires Searching(adj, s, e, visited, parent, dist, queue, offered, level) && queue != []
    ensures queue[0] < |adj| && |dist| == |adj| && level <= dist[queue[0]]
    ensures queue[0] == e ==>
      Searching(adj, s, e, visited, parent, dist, queue[1..], offered, dist[queue[0]])
    ensures queue[0] != e ==>
      Expanding(adj, s, e, visited, parent, dist, queue[1..], offered, queue[0], dist[queue[0]], 0)
  {
    var cur, rest := queue[0], queue[1..];
    forall u | 0 <= u < |adj| && visited[u] && u !in rest && u != e && u != cur
      ensures Expanded(adj, visited, dist, u)
    {
      assert u !in queue;
    }
  }

  lemma FinishSearch(adj: seq<seq<nat>>, s: nat, e: nat, visited: seq<bool>, parent: seq<int>,
                     dist: seq<nat>, offered: seq<nat>, level: nat)
    requires Searching(adj, s, e, visited, parent, dist, [], offered, level)
    ensures Searched(adj, s, e, visited, parent, dist) && Offered(visited, offered)
  {
  }

  /**
   * `shortestPath`: returns None when an argument is null; otherwise clears every
   * node's marks, then either links `end` to itself (when it is the start) or runs
   * the level-by-level search, and returns `end`.
   */
  method ShortestPath<T>(g: Option<IndexedGraph<T>>, visited: array<bool>, parent: array<int>,
                         start: Option<nat>, end: Option<nat>)
    returns (r: Option<nat>, ghost dist: seq<nat>, ghost offered: seq<nat>)
    requires Fits(g, visited.Length, parent.Length, start, end)
    modifies visited, parent
    ensures !AllPresent(g, start, end) ==>
      r == None && visited[..] == old(visited[..]) && parent[..] == old(parent[..])
    ensures AllPresent(g, start, end) ==> r == end
    ensures AllPresent(g, start, end) && start == end ==>
      forall v :: 0 <= v < visited.Length ==>
        !visited[v] && parent[v] == if v == end.value then v else NoParent
    ensures AllPresent(g, start, end) && start != end ==>
      Searched(g.value.adj, start.value, end.value, visited[..], parent[..], dist) &&
      Offered(visited[..], offered)
  {
    if g.None? || start.None? || end.None? {
      return None, [], [];
    }
    var adj, s, e := g.value.adj, start.value, end.value;
    ClearMarks(visited, parent);
    if s == e {
      parent[e] := s;
      return end, [], [];
    }
    visited[s] := true;
    var queue := [s];
    dist := seq(|adj|, _ => 0);
    offered := [s];
    ghost var level: nat := 0;
    StartSearch(adj, s, e, visited[..], parent[..], dist);
    while queue != []
      invariant Searching(adj, s, e, visited[..], parent[..], dist, queue, offered, level)
      invariant QueueIsTail(queue, offered)
      decreases CountFalse(visited[..]) + |queue|
    {
      ghost var measure := CountFalse(visited[..]) + |queue|;
      var size := |queue|;
      var i := 0;
      while i < size
        invariant 0 <= i <= size && |queue| >= size - i
        invariant Searching(adj, s, e, visited[..], parent[..], dist, queue, offered, level)
        invariant QueueIsTail(queue, offered)
        invariant CountFalse(visited[..]) + |queue| + i == measure
      {
        var current := queue[0];
        PollStep(adj, s, e, visited[..], parent[..], dist, queue, offered, level);
        PollKeepsTail(queue, offered);
        queue := queue[1..];
        level := dist[current];
        if current == e {
          break;
        }
        ghost var queue0, offered0 := queue, offered;
        queue, dist, offered := Expand(adj, visited, parent, current, queue, s, e, dist, offered);
        AppendKeepsTail(queue0, offered0, queue[|queue0|..]);
        i := i + 1;
      }
    }
    FinishSearch(adj, s, e, visited[..], parent[..], dist, offered, level);
    return end, dist, offered;
  }
}

/** What a finished search guarantees about the parent links it leaves behind. */
module SearchFacts {
  import opened Paths
  import opened Search

  /** Following parent links from a visited node ends at the start, after exactly `dist[v]` links. */
  lemma ChainEndsAtStart(adj: seq<seq<nat>>, s: nat, e: nat, visited: seq<bool>, parent: seq<int>,
                         dist: seq<nat>, v: nat)
    requires Marked(adj, s, e, visited, parent, dist) && v < |adj| && visited[v]
    ensures var c := Chain(parent, dist, v);
      c[|c| - 1] == s && |c| == dist[v] + 1 && PathFromTo(adj, Reverse(c), s, v)
  {
    var c := Chain(parent, dist, v);
    var last := c[|c| - 1];
    if |c| > 1 {
      assert parent[c[|c| - 2]] == last;
    }
    assert visited[last];
    ReversedChainIsPath(adj, parent, dist, v);
  }

  /** When every parent link follows an edge, the chain read backwards is a path. */
  lemma ReversedChainIsPath(adj: seq<seq<nat>>, parent: seq<int>, dist: seq<nat>, v: nat)
    requires RankedLinks(parent, dist) && |parent| == |adj| && v < |adj|
    requires forall u :: 0 <= u < |adj| && parent[u] != NoParent ==> u in adj[parent[u]]
    ensures IsPath(adj, Reverse(Chain(parent, dist, v)))
  {
    var c := Chain(parent, dist, v);
    var r := Reverse(c);
    forall i | 0 <= i < |r| - 1 ensures r[i + 1] in adj[r[i]] {
      var k := |c| - 2 - i;
      assert r[i + 1] == c[k] && r[i] == c[k + 1] == parent[c[k]];
    }
  }

  /** A path from the start whose nodes before the last avoid `e` ends at a visited node no deeper than its edge count. */
  lemma {:induction false} AvoidingPathReached(adj: seq<seq<nat>>, s: nat, e: nat, visited: seq<bool>,
                                               parent: seq<int>, dist: seq<nat>, p: seq<nat>)
    requires Searched(adj, s, e, visited, parent, dist)
    requires IsPath(adj, p) && p[0] == s
    requires forall i :: 0 <= i < |p| - 1 ==> p[i] != e
    ensures visited[p[|p| - 1]] && dist[p[|p| - 1]] <= |p| - 1
    decreases |p|
  {
    if |p| > 1 {
      var q := p[..|p| - 1];
      AvoidingPathReached(adj, s, e, visited, parent, dist, q);
      var u, w := p[|p| - 2], p[|p| - 1];
      assert Expanded(adj, visited, dist, u);
      var j :| 0 <= j < |adj[u]| && adj[u][j] == w;
    }
  }

  /**
   * After a search from `s` to `e` (`s != e`): `e` is visited exactly when it is
   * reachable, and then its parent chain, read backwards, is a shortest path.
   */
  lemma SearchFindsShortest(adj: seq<seq<nat>>, s: nat, e: nat, visited: seq<bool>, parent: seq<int>,
                            dist: seq<nat>)
    requires Searched(adj, s, e, visited, parent, dist) && e < |adj|
    ensures visited[e] <==> Reachable(adj, s, e)
    ensures visited[e] ==> IsShortest(adj, Reverse(Chain(parent, dist, e)), s, e)
  {
    if visited[e] {
      ChainEndsAtStart(adj, s, e, visited, parent, dist, e);
    }
    forall q | PathFromTo(adj, q, s, e)
      ensures visited[e] && dist[e] + 1 <= |q|
    {
      PathToEndReached(adj, s, e, visited, parent, dist, q);
    }
  }

  /** Any path from the start to `e` finds `e` visited, at a depth no greater than its edge count. */
  lemma PathToEndReached(adj: seq<seq<nat>>, s: nat, e: nat, visited: seq<bool>, parent: seq<int>,
                         dist: seq<nat>, q: seq<nat>)
    requires Searched(adj, s, e, visited, parent, dist) && PathFromTo(adj, q, s, e)
    ensures visited[e] && dist[e] + 1 <= |q|
  {
    var k := 0;
    while q[k] != e
      invariant 0 <= k < |q| && forall i :: 0 <= i < k ==> q[i] != e
      decreases |q| - k
    {
      k := k + 1;
    }
    AvoidingPathReached(adj, s, e, visited, parent, dist, q[..k + 1]);
  }

  /**
   * What the queries read off a finished search: the parent links are ranked, and
   * either `e` is reachable and its reversed chain is a shortest path that is one
   * edge long exactly when `e`'s parent is the start, or `e` is unreachable and
   * has no parent.
   */
  lemma SearchOutcome(adj: seq<seq<nat>>, s: nat, e: nat, visited: seq<bool>, parent: seq<int>,
                      dist: seq<nat>)
    requires Searched(adj, s, e, visited, parent, dist) && e < |adj| && s != e
    ensures RankedLinks(parent, dist) && |parent| == |adj|
    ensures Reachable(adj, s, e) ==>
      var c := Chain(parent, dist, e);
      IsShortest(adj, Reverse(c), s, e) && (|c| == 2 <==> parent[e] == s)
    ensures !Reachable(adj, s, e) ==> parent[e] == NoParent && Chain(parent, dist, e) == [e]
  {
    SearchFindsShortest(adj, s, e, visited, parent, dist);
    if visited[e] {
      var c := Chain(parent, dist, e);
      ChainEndsAtStart(adj, s, e, visited, parent, dist, e);
      if parent[e] == s {
        assert c[1] == s && dist[s] == 0;
      }
    }
  }
}
