# Kevin Bacon degrees of separation

This project models a small graph library and the "six degrees of Kevin Bacon"
queries built on it:

- Actors and movies are nodes of an undirected graph. Each actor is linked to every movie they appear in.
- A breadth-first search (`shortestPath`) links each discovered node to the node it was discovered from.
- `getMinimalDegree` walks that chain of parent links back from the end node and counts the movies on it.
- `getDegreeString` renders the same chain as `start -> ... -> end`.

The modules are:

- `Nodes` (`node.dfy`): the `Node` class.
  - It holds a value set at construction, an append-only edge list, and the two search fields `visited` and `parent`.
  - Equality and hashing look at the value only.
- `Graphs` (`graph.dfy`): the `Graph` class.
  - It holds an insertion-ordered node list and a value-to-node index.
  - `Valid()` is the invariant that ties the two together: each index entry is the last listed node with that value.
- `Paths` (`paths.dfy`): the index view of a graph, plus paths, shortest paths and parent chains.
  - Node `i` carries `values[i]`, and its edge list is `adj[i]`.
- `Search` and `SearchFacts` (`search.dfy`): the search of `shortestPath`, and what it leaves behind.
  - It runs on the index view. The arrays `visited` and `parent` hold the nodes' search fields, and `NoParent` (-1) stands for a null parent.
  - The ghost `dist` records the level at which each node was found.
- `Degree` and `DegreeFacts` (`degree.dfy`): `getMinimalDegree` and `getDegreeString`.
  - `Option` stands for a null graph, start or end argument.
- `Render` (`render.dfy`): joining path values with `" -> "`, and splitting a rendering back into its parts.

Two behaviours of the code drive the model:

- **The search does not stop at the end.** The `break` at `KevinBaconProblem.java:108` leaves only the inner `for`. The outer `while` keeps polling until the queue is empty.
  - Every node reachable from the start without passing through the end is visited and has its edges scanned.
  - The end is visited too, but its edges are never scanned.
  - The model keeps this, and still proves that the end's parent chain is a shortest path.
- **An unreachable end is not reported as -1 or as an empty string.** `getMinimalDegree` returns 0 and `getDegreeString` returns the end's own value. The search returns the end whenever no argument is null, and `reset` leaves the end's parent null.
- **`reset` appears twice.** `Graphs.Graph.Reset` models it on the node objects. `Search.ClearMarks` models it on the arrays of the index view, and that is the version the search calls.

## Model

| member | source | states |
|---|---|---|
| Nodes.Node.constructor | src/main/java/com/coding/exercise/codetest/Node.java:26-36 | a new node has the given value, no edges, is unvisited and has a null parent |
| Nodes.Node.GetEdges | src/main/java/com/coding/exercise/codetest/Node.java:38-40 | returns the node's edge list |
| Nodes.Node.AddEdge | src/main/java/com/coding/exercise/codetest/Node.java:42-44 | appends exactly the neighbour (no dedup, no reverse edge); visited and parent unchanged |
| Nodes.Node.SetParent | src/main/java/com/coding/exercise/codetest/Node.java:46-48 | parent becomes the argument; edges and visited unchanged |
| Nodes.Node.GetParent | src/main/java/com/coding/exercise/codetest/Node.java:50-52 | returns the parent last set |
| Nodes.Node.SetVisited | src/main/java/com/coding/exercise/codetest/Node.java:54-56 | visited becomes the argument; edges and parent unchanged |
| Nodes.Node.IsVisited | src/main/java/com/coding/exercise/codetest/Node.java:58-60 | returns the flag last set |
| Nodes.Node.Equals | src/main/java/com/coding/exercise/codetest/Node.java:62-68 | node equality holds exactly when the other node is non-null with an equal value; edges and search fields are ignored |
| Nodes.EqualsReflexive | src/main/java/com/coding/exercise/codetest/Node.java:64 | every node equals itself |
| Nodes.EqualsSymmetric | src/main/java/com/coding/exercise/codetest/Node.java:62-68 | node equality is symmetric |
| Nodes.EqualsTransitive | src/main/java/com/coding/exercise/codetest/Node.java:62-68 | node equality is transitive |
| Nodes.Wrap32 | src/main/java/com/coding/exercise/codetest/Node.java:73 | the result is a 32-bit signed value congruent to the input modulo 2^32, as Java's int arithmetic gives |
| Nodes.Node.HashCode | src/main/java/com/coding/exercise/codetest/Node.java:70-74 | the hash is a 32-bit signed value congruent to 31 plus the value's own hash modulo 2^32 |
| Nodes.EqualNodesHashAlike | src/main/java/com/coding/exercise/codetest/Node.java:70-74 | equal nodes have equal hash codes, whatever hash the value type uses |
| Graphs.LastIndex | src/main/java/com/coding/exercise/codetest/Graph.java:34-37 | position of the last listed node with the value, -1 when none; no later node carries it |
| Graphs.LastWithValue | src/main/java/com/coding/exercise/codetest/Graph.java:43-45 | null exactly when no listed node has the value; otherwise a listed node with that value and no later one with it |
| Graphs.ListEquals | src/main/java/com/coding/exercise/codetest/Graph.java:52 | equal lists have equal lengths |
| Graphs.ListEqualsIffSameValues | src/main/java/com/coding/exercise/codetest/Graph.java:52 | element-wise list equality holds exactly when lengths agree and the values agree position by position |
| Graphs.Graph.constructor | src/main/java/com/coding/exercise/codetest/Graph.java:22-25 | a new graph has an empty node list and an empty index, and is valid |
| Graphs.Graph.Reset | src/main/java/com/coding/exercise/codetest/Graph.java:27-32 | every listed node ends unvisited with a null parent and its edges unchanged; the list and index are untouched, so the final state does not depend on earlier search fields (a second reset changes nothing) |
| Graphs.Graph.AddNode | src/main/java/com/coding/exercise/codetest/Graph.java:34-37 | appends the node (duplicates allowed), sets the index entry for its value and keeps every other entry; preserves the list/index invariant |
| Graphs.Graph.GetNodeList | src/main/java/com/coding/exercise/codetest/Graph.java:39-41 | returns the node list as it is |
| Graphs.Graph.GetNode | src/main/java/com/coding/exercise/codetest/Graph.java:43-45 | returns the most recently added node with the value, or null when none was added |
| Graphs.Graph.Equals | src/main/java/com/coding/exercise/codetest/Graph.java:47-53 | an equal graph is non-null and has as many nodes |
| Graphs.GraphEqualsIffSameValues | src/main/java/com/coding/exercise/codetest/Graph.java:47-53 | two graphs are equal exactly when their node lists have the same length and the same values in order |
| Paths.ChainDistinct | src/main/java/com/coding/exercise/codetest/KevinBaconProblem.java:36-40 | a chain of ranked parent links never repeats a node, so the walks up the parent links stop |
| Search.ClearMarks | src/main/java/com/coding/exercise/codetest/Graph.java:27-32 | every node is left unvisited with no parent (the `reset` the search starts with) |
| Search.CountFalseMark | src/main/java/com/coding/exercise/codetest/KevinBaconProblem.java:112-115 | marking an unvisited node lowers the number of unvisited nodes by one, which bounds the number of offers |
| Search.Visit | src/main/java/com/coding/exercise/codetest/KevinBaconProblem.java:113-114 | the neighbour becomes visited with the current node as its parent; every other mark and link is unchanged |
| Search.ScanEdges | src/main/java/com/coding/exercise/codetest/KevinBaconProblem.java:111-117 | the marks, links and queue after the inner `for` are those of `ScanVisited`, `ScanParent` and `ScanAdded` over the edges; the unvisited count falls by as much as the queue grows |
| Search.ScanEffect | src/main/java/com/coding/exercise/codetest/KevinBaconProblem.java:111-117 | after the scan exactly the neighbours unvisited before are visited with the current node as parent, every other mark and link is as before, and the appended nodes are those neighbours, each once |
| Search.ScanStepKeeps | src/main/java/com/coding/exercise/codetest/KevinBaconProblem.java:112-116 | scanning one edge marks, links and appends an unvisited neighbour and leaves a visited one alone, and keeps the search invariant |
| Search.ScanKeepsExpanding | src/main/java/com/coding/exercise/codetest/KevinBaconProblem.java:111-117 | scanning the first edges of the current node keeps the search invariant, with the marks, links and appended nodes the scan functions give |
| Search.ScanKeepsSearching | src/main/java/com/coding/exercise/codetest/KevinBaconProblem.java:110-117 | after all edges of the current node are scanned, it is expanded and the invariant of the outer loop holds again, with the offer log extended by exactly the appended nodes |
| Search.PollKeepsTail | src/main/java/com/coding/exercise/codetest/KevinBaconProblem.java:106 | polling the head keeps the queue the tail of the offer log |
| Search.AppendKeepsTail | src/main/java/com/coding/exercise/codetest/KevinBaconProblem.java:115 | offering the same nodes to the queue and to the log keeps the queue the tail of the log; with the log free of repeats (the loop invariant `Offered`), no node enters the queue twice |
| Search.Expand | src/main/java/com/coding/exercise/codetest/KevinBaconProblem.java:110-117 | exactly the neighbours unvisited before are marked visited, linked to the current node and appended to the queue in edge order, each once; every other mark and link is kept; the search invariant is kept; the offer log grows by exactly the appended nodes; the unvisited count falls by as much as the queue grows |
| Search.ShortestPath | src/main/java/com/coding/exercise/codetest/KevinBaconProblem.java:93-122 | a null argument gives None and leaves all nodes untouched; otherwise returns the end; start == end leaves everything clear except the end's parent, which is the end itself; otherwise the links left behind are consistent search links and every visited node other than the end has been expanded. The loop ends because the number of unvisited nodes plus the queue length falls with each poll (its `decreases` clause) |
| SearchFacts.ChainEndsAtStart | src/main/java/com/coding/exercise/codetest/KevinBaconProblem.java:101-116 | from a visited node the parent chain reaches the start after exactly its level many links, and read backwards it is a path from the start |
| SearchFacts.AvoidingPathReached | src/main/java/com/coding/exercise/codetest/KevinBaconProblem.java:103-119 | a path from the start that avoids the end before its last node ends at a visited node no deeper than its edge count |
| SearchFacts.SearchFindsShortest | src/main/java/com/coding/exercise/codetest/KevinBaconProblem.java:77-81 | after the search the end is visited exactly when it is reachable, and then its reversed parent chain is a shortest path |
| SearchFacts.SearchOutcome | src/main/java/com/coding/exercise/codetest/KevinBaconProblem.java:93-122 | after a search with start != end: either the end is reachable and its reversed chain is a shortest path that is one edge long exactly when the end's parent is the start, or the end is unreachable and has a null parent |
| Degree.CountChain | src/main/java/com/coding/exercise/codetest/KevinBaconProblem.java:34-41 | the walk up the parent links counts exactly the nodes above the end on its chain whose value is a movie |
| Degree.GetMinimalDegree | src/main/java/com/coding/exercise/codetest/KevinBaconProblem.java:29-42 | -1 with nothing touched for a null argument; 0 when the end is unreachable; otherwise a shortest path exists and the result counts the movies on it, the start included and the end excluded; the reported path is the end's parent chain, read from the start, in the links left behind |
| Degree.DegreeOutcome | src/main/java/com/coding/exercise/codetest/KevinBaconProblem.java:36-41 | the count over the chain above the end equals the count over the path from the start without its end, and is 0 when the end has no parent |
| Degree.PushChain | src/main/java/com/coding/exercise/codetest/KevinBaconProblem.java:59-64 | the stack holds the values of the end's parent chain, the end's first and the start's last |
| Degree.PopAll | src/main/java/com/coding/exercise/codetest/KevinBaconProblem.java:67-72 | popping yields the stack's contents in reverse |
| Degree.GetDegreeString | src/main/java/com/coding/exercise/codetest/KevinBaconProblem.java:53-74 | empty for a null argument (nothing touched) and for start == end; only the end's value when it is unreachable; otherwise empty when the shortest path is one edge, and the path's values from start to end when it is longer; the reported path is the end's parent chain, read from the start, in the links left behind |
| Degree.PathValuesOutcome | src/main/java/com/coding/exercise/codetest/KevinBaconProblem.java:57-72 | the popped stack is the end's value alone when it is unreachable; otherwise empty for a one-edge shortest path and its values from start to end when longer |
| Degree.DegreeString | src/main/java/com/coding/exercise/codetest/KevinBaconProblem.java:53-74 | the same cases rendered as strings: "", the end's value, or the path's values joined with " -> ", for the same parent-chain path |
| DegreeFacts.AlternatingCount | src/main/java/com/coding/exercise/codetest/KevinBaconProblem.java:16-20 | in a graph where every edge joins an actor and a movie, a path from an actor counts half its edge count of movies, and its last node is a movie exactly when the edge count is odd |
| DegreeFacts.SelfLinkNeverEnds | src/main/java/com/coding/exercise/codetest/KevinBaconProblem.java:96-98 | when the start is the end the end is its own parent, so any number of steps up the links stays at the end and the degree walk never stops |
| Render.Join | src/main/java/com/coding/exercise/codetest/KevinBaconProblem.java:66-72 | the length of the rendering of a non-empty list is the parts' total plus four characters (one separator) per gap |
| Render.FindArrow | src/main/java/com/coding/exercise/codetest/KevinBaconProblem.java:70 | finds the first separator at or after a position, or the end of the string |
| Render.SplitJoin | src/main/java/com/coding/exercise/codetest/KevinBaconProblem.java:66-73 | when no part contains '>', splitting the rendering at the separators gives back the parts |

## Left out

- The `main` method, the sample actor and movie data, and `printResult`. They are console I/O around the core.
- `Graph.hashCode` (`Objects.hash` of the list) is not part of this model. Equality of graphs is modelled.
- `Nodes.Node.HashCode` takes the value type's own hash code as a parameter, because that hash is outside this code.
- `Nodes.Node`: the value is a `const`, fixed at construction. The Java field `value` (`Node.java:16`) is public and assignable. Reassigning it would leave the node under a stale key in `nodeMap` and break `Graphs.Graph.Valid`; the model does not capture that.
- `Nodes.Node.AddEdge` takes a non-null node. `addEdge(null)` (`Node.java:42-44`) appends null to the edge list in Java, and a later search would then fail on it; the model does not capture that.
- `Graphs.Graph.AddNode` takes a non-null node. `addNode(null)` appends null to the list (`Graph.java:35`) and then fails on the null dereference at `Graph.java:36` before the index is updated, leaving the list one longer than the index reflects; the model does not capture that.
- The `getClass()` test in both `equals` methods is not modelled. An argument of another class is outside Dafny's typing.
- The queries run on an index view of the graph. That view assumes:
  - the listed nodes are distinct objects;
  - every edge target is a listed node;
  - start and end are positions in the list.

  The arrays stand for the nodes' `visited` and `parent` fields. The node objects themselves are not threaded through the search.
- `Graphs.Graph.GetNodeList` returns the list's value. Later changes made through the live Java list that the caller holds (aliasing) are not modelled.
- `Degree.GetMinimalDegree` requires start != end. When the start is the end, `getMinimalDegree` loops forever, because the end is its own parent. A method that never returns cannot be verified, so `SelfLinkNeverEnds` states the divergence instead.
- `Degree.GetMinimalDegree` does not model 32-bit overflow of the counter. The count is at most the number of nodes.
- `Degree.DegreeString` renders string values only. For other value types, `Degree.GetDegreeString` returns the sequence of values, because their `toString` is outside this code.
