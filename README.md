# graph-search in Dafny

A verified model of a small Java directed-graph library and its bidirectional breadth-first
reachability search.

- `wrappers.dfy` (`Wrappers`): `Option`. Its `None` stands for the `null` that a Java lookup returns.
- `nodes.dfy` (`Nodes`): the `Node` record, a vertex identified by one string. It models `equals` over
  `null`, nodes and other classes, and `toString`.
- `directed_graph.dfy` (`DirectedGraphs`): the forward graph.
  - The map from each node to its ordered neighbour list is the field `adjList` of class `DirectedGraph`.
  - Its methods mutate that field as the Java methods do: `addNode` by node and by value, `addEdge`,
    and the bulk conversion from a string-keyed map.
  - Each method is proved equal to a specification function of the old map (`WithNode`, `EdgeAdded`,
    `Converted`).
  - The lookups `getNode` and `getNeighbors` are proved against `Lookup` and against the map itself.
  - The constructor's shape dispatch is `InitialAdjacency` over a tagged input: Node-keyed,
    string-keyed, or another shape.
- `reachability.dfy` (`Reachability`): paths along forward edges, and what "a path from src to dest
  exists" means. It also proves that a set closed under edges holds everything reachable from (or
  reaching) its members.
- `bidi_graph.dfy` (`BiDiGraphs`): the bidirectional graph.
  - A `BiDiGraph` holds the forward `DirectedGraph` built by the superclass constructor, plus the
    inverted map `reverseAdjList`.
  - `Reverse` is the nested loop of `reverse`. It is proved to build an inversion (`IsInversion`):
    its keys are exactly the nodes that occur in some forward list, and `u` occurs in the reverse list
    of `v` as often as `v` occurs in the forward list of `u`.
  - Lemmas state what an inversion guarantees:
    - it records exactly the forward edges, turned around;
    - it has no empty lists;
    - it is unique up to list order;
    - inverting it again gives back every non-empty forward list as a multiset;
    - a node without incoming edges is not found in it.
- `bidirectional_search.dfy` (`BidirectionalSearch`): `search(src, dest)` as a `while` loop.
  - The loop polls two queues and grows two visited sets, with the inner enqueue loop as
    `EnqueueUnvisited`.
  - The result is `Returned(b)`, or `NullNeighbourList` when the Java code would iterate a `null`
    neighbour list and throw.
  - Proved results (s and d are the nodes named by src and dest):
    - If true is returned, some node is reachable forward from s and along the reverse map from d.
    - On a graph whose reverse map is the inversion of its forward map, the returned boolean is
      exactly "a path from src to dest exists".
    - Unresolved endpoints always fail.
    - The search cannot fail when every node the walks can reach has a list.
    - `src == dest` with both resolved returns true.
  - Termination is proved with a measure: the unvisited part of the finite set of enqueueable nodes,
    then the length of the queue prefix enqueued before the visited set last grew.

Behaviour of the Java code that the model reproduces:
- `getNeighbors` and `getReversedNeighbors` return the stored list when the node is a key and `null`
  otherwise (src/DirectedGraph.java:133-136, src/BiDiGraph.java:83-86).
- The string conversion makes keys only of the input's keys. Strings that occur only as neighbours
  do not become keys (`ConvertedNeighbourOnlyStrings`).
- `search` resolves `src` with `getNode` and `dest` with `getReverseNode` and enqueues the results
  even when they are `null` (src/BidirectionalSearch.java:39-43). The first round then iterates the
  `null` neighbour list of that node, which throws.
  - The model returns `NullNeighbourList` for that. For example, `search("F", "A")` on the demo
    graph `A→[B,C], B→[D,E], C→[F]` fails this way: `F` is not a forward key and `A` has no incoming
    edge.
  - The same happens later when a popped node is not a key of the map it walks
    (src/BidirectionalSearch.java:56 and 70). For example, `search("B", "F")` on the demo graph pops
    `D` in the second round, and `D` is not a forward key.
- With `src == dest`, the loop is entered. The answer true comes from the reverse step of the first
  round (src/BidirectionalSearch.java:66-67).

## Model

| member | source | states |
|---|---|---|
| Nodes.Equals | src/Node.java:24-30 | `equals` holds exactly when it is handed a node equal to this one: never for `null` or another class |
| Nodes.ToString | src/Node.java:13-16 | `toString` gives back the string the node is built from, so building a node from it gives the same node |
| Nodes.EqualsIsValueEquality | src/Node.java:24-30 | `equals` on two nodes holds iff their value strings are equal, which is Dafny's value equality of nodes |
| Nodes.EqualsReflexive | src/Node.java:26 | a node equals itself |
| Nodes.EqualsRejectsNullAndOtherClasses | src/Node.java:27 | a node never equals `null` or an object of another class |
| Nodes.ToStringIsValue | src/Node.java:13-16 | `toString` is exactly the value, so two nodes print alike iff they are equal |
| DirectedGraphs.Lookup | src/DirectedGraph.java:146-155 | a found key carries the value asked for; nothing is found iff no key carries that value |
| DirectedGraphs.WithNode | src/DirectedGraph.java:76-80 | adding a node adds it to the keys with an empty list if it was absent, and keeps every existing entry |
| DirectedGraphs.EdgeAdded | src/DirectedGraph.java:104-122 | after adding an edge both endpoints are keys, the edge exists, only the source's list can change, and at most the destination is appended at its end; an already listed destination changes nothing beyond creating its key |
| DirectedGraphs.EdgeAddedAsWritten | src/DirectedGraph.java:104-122 | the same keys and untouched other lists as the corrected version, and the same result whenever the destination already existed or equals the source |
| DirectedGraphs.ToNodes | src/DirectedGraph.java:172-176 | the converted neighbour list has the same length and the node of each string at the same position |
| DirectedGraphs.Converted | src/DirectedGraph.java:167-180 | the converted map's keys are the old keys plus one node per input key; each input key's list is its old list followed by its strings as nodes, in order, duplicates kept; other lists are unchanged |
| DirectedGraphs.InitialAdjacency | src/DirectedGraph.java:23-34 | a Node-keyed input is adopted as is, a string-keyed input becomes one key per input key with its converted list, anything else gives the empty map |
| DirectedGraphs.AddNodeByValueIsAddNode | src/DirectedGraph.java:88-93 | adding by value when no key has the value is the same as adding `Node(value)` |
| DirectedGraphs.EdgeAddedIdempotent | src/DirectedGraph.java:115-122 | adding the same edge twice equals adding it once |
| DirectedGraphs.EdgeAddedNoDuplicate | src/DirectedGraph.java:115-122 | after adding an edge the destination occurs in the source's list once if it was absent, and as often as before otherwise |
| DirectedGraphs.EdgeAddedAsWrittenLinksSourceToItself | src/DirectedGraph.java:109-113 | as written, adding an edge to a fresh destination creates it with an empty list, links the source to itself and not to the destination |
| DirectedGraphs.EdgeAddedAsWrittenCounterexample | src/DirectedGraph.java:112 | on the empty graph, `addEdge("A","B")` as written gives `A→[A], B→[]` where the corrected version gives `A→[B], B→[]` |
| DirectedGraphs.ConvertedNeighbourOnlyStrings | src/DirectedGraph.java:167-180 | a string that is neither an input key nor an old key does not become a key, even when it occurs as a neighbour |
| DirectedGraphs.ConvertedSoFarStep | src/DirectedGraph.java:168-179 | handling one more input key keeps the conversion invariant: exactly the handled keys have been merged |
| DirectedGraphs.ConvertedSoFarComplete | src/DirectedGraph.java:167-180 | once every input key has been handled, the map is the converted map |
| DirectedGraphs.FindKey | src/DirectedGraph.java:147-154 | the key scan returns the key with the given value, or nothing if there is none |
| DirectedGraphs.ContainsNode | src/DirectedGraph.java:116-120 | the duplicate scan finds the target iff it occurs in the list |
| DirectedGraphs.ToNodeList | src/DirectedGraph.java:172-176 | the neighbour loop builds exactly the converted list |
| DirectedGraphs.DirectedGraph.constructor | src/DirectedGraph.java:23-34 | the new graph's map is the one the input shape determines |
| DirectedGraphs.DirectedGraph.AddNode | src/DirectedGraph.java:76-80 | the new map is the old one with the node added if absent |
| DirectedGraphs.DirectedGraph.AddNodeByValue | src/DirectedGraph.java:88-93 | the new map is the old one with `Node(value)` added if no key carries `value` |
| DirectedGraphs.DirectedGraph.AddEdge | src/DirectedGraph.java:102-123 | the new map is the corrected edge insertion applied to the old one |
| DirectedGraphs.DirectedGraph.AddEdgeAsWritten | src/DirectedGraph.java:102-123 | the new map is the edge insertion as written applied to the old one |
| DirectedGraphs.DirectedGraph.GetNeighbors | src/DirectedGraph.java:132-137 | the stored list is returned iff the node is a key, `null` otherwise |
| DirectedGraphs.DirectedGraph.GetNode | src/DirectedGraph.java:146-155 | the result is the key carrying the value, or `null` iff there is none |
| DirectedGraphs.DirectedGraph.ConvertStringMap | src/DirectedGraph.java:167-180 | the new map is the conversion of the string-keyed input merged into the old map |
| Reachability.ReachableTransitive | src/BidirectionalSearch.java:29-30 | paths compose: reachability is transitive |
| Reachability.ClosedForwardHoldsReachable | src/BidirectionalSearch.java:45 | a node set closed under forward edges holds everything reachable from its members |
| Reachability.ClosedBackwardHoldsReaching | src/BidirectionalSearch.java:45 | a node set closed under backward edges holds everything that reaches its members |
| BiDiGraphs.Occurrences | src/BiDiGraph.java:46-53 | a node occurs in another's forward list a positive number of times iff there is an edge between them |
| BiDiGraphs.InversionEdges | src/BiDiGraph.java:46-53 | `u` is in the reverse list of `v` iff `v` is in the forward list of `u` |
| BiDiGraphs.InversionListsNonEmpty | src/BiDiGraph.java:52 | no reverse list is empty |
| BiDiGraphs.InversionUnique | src/BiDiGraph.java:41-57 | any two inversions of one map have the same keys and the same lists up to order |
| BiDiGraphs.DoubleInversion | src/BiDiGraph.java:46-53 | inverting the inversion gives back exactly the nodes with a non-empty forward list, each with the same multiset of neighbours |
| BiDiGraphs.InversionLookup | src/BiDiGraph.java:66-74 | looking a value up in the reverse map finds nothing iff the node has no incoming forward edge |
| BiDiGraphs.InversionAddEmptyKey | src/BiDiGraph.java:46-47 | a source whose neighbours are not yet processed adds nothing to the reverse map |
| BiDiGraphs.InversionAppend | src/BiDiGraph.java:50-52 | recording one more forward occurrence `u → v` is matched by appending `u` to the reverse list of `v`, created if absent |
| BiDiGraphs.TargetsAppend | src/BiDiGraph.java:52 | appending `v` to a forward list adds exactly `v` to the nodes that need a reverse list |
| BiDiGraphs.BiDiGraph.constructor | src/BiDiGraph.java:28-31 | the forward map is the one the input determines and the reverse map is its inversion |
| BiDiGraphs.BiDiGraph.Reverse | src/BiDiGraph.java:41-58 | the reverse map is replaced by an inversion of the given map, and the forward graph is untouched |
| BiDiGraphs.BiDiGraph.GetReverseNode | src/BiDiGraph.java:66-74 | the result is the reverse key carrying the value, or `null` iff there is none |
| BiDiGraphs.BiDiGraph.GetReversedNeighbors | src/BiDiGraph.java:82-87 | the stored reverse list is returned iff the node is a reverse key, `null` otherwise |
| BiDiGraphs.ReversedNeighborsArePredecessors | src/BiDiGraph.java:82-87 | on a valid graph the reversed neighbours of a node are exactly its forward predecessors |
| BidirectionalSearch.Unvisited | src/BidirectionalSearch.java:56-60 | the enqueued neighbours are exactly those not yet visited, never more than the list |
| BidirectionalSearch.EnqueueUnvisited | src/BidirectionalSearch.java:56-60 | the inner loop appends the unvisited neighbours, in order, to the queue |
| BidirectionalSearch.FrontierInit | src/BidirectionalSearch.java:33-43 | a side that starts with its endpoint queued and nothing visited satisfies the frontier invariant |
| BidirectionalSearch.FrontierStep | src/BidirectionalSearch.java:49-60 | polling, visiting and enqueueing the unvisited neighbours keeps every queued and visited node reachable from the side's endpoint, and every edge out of a visited node leads to a visited or queued node |
| BidirectionalSearch.ForwardStep | src/BidirectionalSearch.java:49-60 | a forward step keeps the forward invariant and either grows the visited set within the finite set of enqueueable nodes or shortens the stale queue prefix |
| BidirectionalSearch.FrontierExhausted | src/BidirectionalSearch.java:45 | when the forward queue is empty, everything reachable from the source has been visited |
| BidirectionalSearch.InversionReversesReachability | src/BidirectionalSearch.java:70-74 | on an inversion, `b` reaches `a` along the reverse map iff `a` reaches `b` forward; so walking the reverse map from `d` reaches exactly the nodes from which `d` is reachable forward |
| BidirectionalSearch.NoPathWhenExhausted | src/BidirectionalSearch.java:45-77 | if either queue is empty and the visited sets are disjoint, no forward path from the source to the destination exists |
| BidirectionalSearch.ForwardMissing | src/BidirectionalSearch.java:56 | a forward-reachable node without a forward list makes the walk undefined |
| BidirectionalSearch.ReverseMissing | src/BidirectionalSearch.java:70 | a node other than the source that the reverse walk reaches and that has no reverse list makes the walk undefined |
| BidirectionalSearch.MeetIsPath | src/BidirectionalSearch.java:29-30 | on a valid graph the two sides can meet iff a forward path from the source to the destination exists |
| BidirectionalSearch.FoundMeets | src/BidirectionalSearch.java:52-53 | a node reached by both sides witnesses a meeting, and on a valid graph a path |
| BidirectionalSearch.DisjointAfterRound | src/BidirectionalSearch.java:50-67 | a round that returns nothing keeps the two visited sets disjoint |
| BidirectionalSearch.RoundKeepsState | src/BidirectionalSearch.java:45-75 | a full round that neither meets nor fails keeps the loop invariant and decreases the termination measure |
| BidirectionalSearch.Search | src/BidirectionalSearch.java:32-78 | unresolved endpoints fail; true means the sides meet; on a valid graph the boolean result is exactly the existence of a path; the walk cannot fail when every reachable node has a list; equal resolved endpoints give true |

## Left out

- Random graph generators (`generateRandomAdjacencyList` in both classes): they depend on `Math.random`.
- `toString` of the graphs and of the search, and the `main` demos: they are rendering, and their
  output order comes from `HashMap` iteration.
- The `"while ran!"` console print in the search loop: it is output only.
- Run-time shape detection. The constructor inspects the first entry of an untyped map with
  `instanceof`; here the caller states the shape as `GraphInput`. An empty map is adopted as an empty
  graph, as in the source.
- Aliasing. A Node-keyed input map is adopted by reference in the source. The model copies it as a
  value, so later changes through another reference to that map are not modelled.
- `src/Graph.java` is not part of this model: it has only abstract declarations.
- Inheritance. `BiDiGraph extends DirectedGraph` is modelled by composition: the `forward` field
  holds the graph built by the superclass constructor. `BidirectionalSearch extends BiDiGraph` is
  not modelled; `Search` takes the graph it searches.
- DirectedGraphs.EdgeAdded: the duplicate test compares nodes by value, while the source compares
  references (`==`). A value-equal but distinct neighbour object, such as one created by the string
  conversion, would not stop the source from appending again.
- BiDiGraphs.BiDiGraph.Reverse: the order inside each reverse list follows the unspecified iteration
  order of `HashMap` keys. It is stated up to order, as occurrence counts.
- BidirectionalSearch.Search: the exact boolean result is proved only for graphs whose reverse map is
  the inversion of the forward map (`Valid`).
  - This holds after construction. It is lost when edges are added afterwards, because the reverse
    map is not updated; adding a node with an empty list keeps it (`InversionAddEmptyKey`).
  - For other graphs, only the meaning of a true result is proved.
- BidirectionalSearch.Search: it is proved not to fail when every node either walk can reach has a
  list. It does not characterise exactly which inputs fail, and the demo
  `search("A", "E")` is not shown to return true: its graph has neighbour-only nodes.
- Nodes: the Java record allows a `null` value string; the model's strings are never null.
- Reference identity of nodes in general: the model treats nodes only as values.

## Findings

| source | as written | input that shows it | evidently intended | confidence | as-written member | corrected member |
|---|---|---|---|---|---|---|
| src/DirectedGraph.java:112 | when `dest` has to be created, `destNode = getNode(src)`, so the source node is appended to its own list | `addEdge("A", "B")` on an empty graph gives `A→[A], B→[]` | `destNode = getNode(dest)`, giving `A→[B], B→[]` | not executed | DirectedGraphs.EdgeAddedAsWrittenCounterexample | DirectedGraphs.EdgeAdded |

The as-written behaviour is `DirectedGraphs.EdgeAddedAsWritten` and
`DirectedGraphs.DirectedGraph.AddEdgeAsWritten`. `DirectedGraphs.EdgeAddedAsWrittenLinksSourceToItself`
proves the defect for every fresh destination. The corrected behaviour, `DirectedGraphs.EdgeAdded` and
`DirectedGraphs.DirectedGraph.AddEdge`, has the destination edge, only the source's list changed and
idempotence proved (`DirectedGraphs.EdgeAddedIdempotent`). As written, `addEdge` is not idempotent
either: calling it twice with `("A", "B")` on the empty graph gives `A→[A,B]`, because the second
call finds `B` and appends it.
