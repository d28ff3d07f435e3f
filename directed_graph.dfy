/**
 * The forward graph (src/DirectedGraph.java): a map from each node to its ordered list of
 * out-neighbours, with node and edge insertion, lookups, and bulk loading from a string-keyed map.
 */
module DirectedGraphs {
  import opened Wrappers
  import opened Nodes

  /** An adjacency map: node to its ordered neighbour list (duplicates allowed). */
  type AdjList = map<Node, seq<Node>>

  /** A string-keyed adjacency specification, as handed to the constructor. */
  type StringAdjList = map<string, seq<string>>

  /**
   * The constructor's input. The source inspects the first entry of an untyped map at run time;
   * here the caller states the shape. `OtherShape` is any non-empty map that is neither.
   */
  datatype GraphInput = NodeKeyed(nodes: AdjList) | StringKeyed(strings: StringAdjList) | OtherShape

  /** There is an edge `u -> v`: `u` is a key and `v` occurs in its list. */
  predicate Edge(adj: AdjList, u: Node, v: Node)
  {
    u in adj && v in adj[u]
  }

  /** The nodes that occur in some neighbour list. */
  function Targets(adj: AdjList): set<Node>
  {
    set u, v | u in adj && v in adj[u] :: v
  }

  lemma EdgeTargetInTargets(adj: AdjList, u: Node, v: Node)
    requires Edge(adj, u, v)
    ensures v in Targets(adj)
  {
  }

  /** `m` cut down to the keys in `keys`. */
  function Restrict<K, V>(m: map<K, V>, keys: set<K>): (r: map<K, V>)
    ensures r.Keys == m.Keys * keys
    ensures forall k :: k in r ==> r[k] == m[k]
  {
    map k | k in m && k in keys :: m[k]
  }

  // ---------------------------------------------------------------------------------------------
  // Specification functions

  /**
   * What the scan `getNode(value)` finds among the keys of `adj`. Since nodes compare by value, the
   * only key that can carry `value` is `Node(value)`.
   */
  function Lookup(adj: AdjList, value: string): (r: Option<Node>)
    ensures r.Some? ==> r.value in adj && r.value.value == value
    ensures r.None? <==> forall k :: k in adj ==> k.value != value
  {
    if Node(value) in adj then Some(Node(value)) else None
  }

  /** The map after `addNode(n)`: an absent node gets an empty list, a present one changes nothing. */
  function WithNode(adj: AdjList, n: Node): (r: AdjList)
    ensures r.Keys == adj.Keys + {n}
    ensures forall k :: k in adj ==> r[k] == adj[k]
    ensures n !in adj ==> r[n] == []
  {
    if n in adj then adj else adj[n := []]
  }

  /** The neighbour list of `n` once `n` has been added if absent. */
  function ListOf(adj: AdjList, n: Node): seq<Node>
  {
    if n in adj then adj[n] else []
  }

  /**
   * The map after `addEdge(src, dest)` as evidently intended: both endpoints exist afterwards and
   * `Node(dest)` is appended to the list of `Node(src)` unless it already occurs there.
   */
  function EdgeAdded(adj: AdjList, src: string, dest: string): (r: AdjList)
    ensures r.Keys == adj.Keys + {Node(src), Node(dest)}
    ensures forall k :: k in r && k != Node(src) ==> r[k] == ListOf(adj, k)
    ensures Edge(r, Node(src), Node(dest))
    ensures r[Node(src)] == ListOf(adj, Node(src)) || r[Node(src)] == ListOf(adj, Node(src)) + [Node(dest)]
    ensures Node(dest) in ListOf(adj, Node(src)) ==> r == WithNode(adj, Node(dest))
  {
    var g := WithNode(WithNode(adj, Node(src)), Node(dest));
    var neighbors := g[Node(src)];
    if Node(dest) in neighbors then g else g[Node(src) := neighbors + [Node(dest)]]
  }

  /**
   * The map after `addEdge(src, dest)` as written: when `dest` had to be created, the node appended
   * to the list of `src` is the one `getNode(src)` returns, i.e. `Node(src)` itself.
   */
  function EdgeAddedAsWritten(adj: AdjList, src: string, dest: string): (r: AdjList)
    ensures r.Keys == adj.Keys + {Node(src), Node(dest)}
    ensures forall k :: k in r && k != Node(src) ==> r[k] == ListOf(adj, k)
    ensures Node(dest) in adj || src == dest ==> r == EdgeAdded(adj, src, dest)
  {
    var g1 := WithNode(adj, Node(src));
    var target := if Node(dest) in g1 then Node(dest) else Node(src);
    var g := WithNode(g1, Node(dest));
    var neighbors := g[Node(src)];
    if target in neighbors then g else g[Node(src) := neighbors + [target]]
  }

  /** The strings of a neighbour list turned into nodes, one for one. */
  function ToNodes(values: seq<string>): (r: seq<Node>)
    ensures |r| == |values|
    ensures forall i :: 0 <= i < |values| ==> r[i] == Node(values[i])
  {
    if values == [] then [] else [Node(values[0])] + ToNodes(values[1..])
  }

  /** The nodes made from a set of strings. */
  function NodesOf(values: set<string>): set<Node>
  {
    set k | k in values :: Node(k)
  }

  /** The nodes made from the keys of a string-keyed map. */
  function StringKeys(strings: StringAdjList): set<Node>
  {
    NodesOf(strings.Keys)
  }

  lemma NodesOfAdd(values: set<string>, value: string)
    ensures NodesOf(values + {value}) == NodesOf(values) + {Node(value)}
  {
  }

  /**
   * The map after `convertStringMapToAdjacencyList(strings)`: each string key becomes a node key whose
   * list is extended by its neighbour strings turned into nodes, in order and with duplicates kept.
   */
  function Converted(adj: AdjList, strings: StringAdjList): (r: AdjList)
    ensures r.Keys == adj.Keys + StringKeys(strings)
    ensures forall k {:trigger strings[k]} :: k in strings ==> r[Node(k)] == ListOf(adj, Node(k)) + ToNodes(strings[k])
    ensures forall n :: n in adj && n.value !in strings ==> r[n] == adj[n]
  {
    map n | n in adj.Keys + StringKeys(strings) ::
      ListOf(adj, n) + (if n.value in strings then ToNodes(strings[n.value]) else [])
  }

  /** The forward map the constructor builds from its input. */
  function InitialAdjacency(input: GraphInput): (r: AdjList)
    ensures input.NodeKeyed? ==> r == input.nodes
    ensures input.StringKeyed? ==> r.Keys == StringKeys(input.strings)
    ensures input.StringKeyed? ==> forall k {:trigger input.strings[k]} :: k in input.strings ==> r[Node(k)] == ToNodes(input.strings[k])
    ensures input.OtherShape? ==> r == map[]
  {
    match input
    case NodeKeyed(nodes) => nodes
    case StringKeyed(strings) => if |strings| == 0 then map[] else Converted(map[], strings)
    case OtherShape => map[]
  }

  // ---------------------------------------------------------------------------------------------
  // Lemmas

  /** `addNode(String)` has the effect of `addNode(new Node(value))`. */
  lemma AddNodeByValueIsAddNode(adj: AdjList, value: string)
    ensures (if Lookup(adj, value).None? then adj[Node(value) := []] else adj) == WithNode(adj, Node(value))
  {
  }

  /** Adding the same edge a second time changes nothing. */
  lemma EdgeAddedIdempotent(adj: AdjList, src: string, dest: string)
    ensures EdgeAdded(EdgeAdded(adj, src, dest), src, dest) == EdgeAdded(adj, src, dest)
  {
  }

  /** After adding an edge, the destination occurs once in the source's list if it was absent, and as often as before otherwise. */
  lemma EdgeAddedNoDuplicate(adj: AdjList, src: string, dest: string)
    ensures multiset(EdgeAdded(adj, src, dest)[Node(src)])[Node(dest)] ==
            if Node(dest) in ListOf(adj, Node(src)) then multiset(ListOf(adj, Node(src)))[Node(dest)] else 1
  {
  }

  /**
   * As written, adding an edge to a node that does not exist yet (and differs from the source)
   * creates that node but appends the source to its own list instead.
   */
  lemma EdgeAddedAsWrittenLinksSourceToItself(adj: AdjList, src: string, dest: string)
    requires Node(dest) !in adj && src != dest && Node(dest) !in ListOf(adj, Node(src))
    ensures var r := EdgeAddedAsWritten(adj, src, dest);
      && Node(dest) in r && r[Node(dest)] == []
      && Edge(r, Node(src), Node(src))
      && !Edge(r, Node(src), Node(dest))
  {
  }

  /** The smallest input that shows the defect: on an empty graph, `addEdge("A", "B")` yields `A -> [A]`. */
  lemma EdgeAddedAsWrittenCounterexample()
    ensures EdgeAddedAsWritten(map[], "A", "B") == map[Node("A") := [Node("A")], Node("B") := []]
    ensures EdgeAdded(map[], "A", "B") == map[Node("A") := [Node("B")], Node("B") := []]
  {
    var a, b := Node("A"), Node("B");
    assert a != b;
    var g1 := WithNode(map[], a);
    assert g1 == map[a := []];
    assert b !in g1;
    var g := WithNode(g1, b);
    assert g == map[a := [], b := []];
    assert g[a] == [];
    assert a !in g[a] && b !in g[a];
    assert [] + [a] == [a] && [] + [b] == [b];
  }

  /** Strings that occur only as neighbours never become keys of the converted map. */
  lemma ConvertedNeighbourOnlyStrings(adj: AdjList, strings: StringAdjList, s: string)
    requires s !in strings && Node(s) !in adj
    ensures Node(s) !in Converted(adj, strings)
  {
  }

  /** Maps with the same keys and the same entries are equal. */
  lemma MapsEqual<K, V>(a: map<K, V>, b: map<K, V>)
    requires a.Keys == b.Keys
    requires forall k :: k in a ==> a[k] == b[k]
    ensures a == b
  {
  }

  /** Entry `n` of `adj` is its entry in `start` extended by its converted string list if its key is in `done`. */
  ghost predicate EntrySoFar(start: AdjList, strings: StringAdjList, done: set<string>, adj: AdjList, n: Node)
    requires n in adj && done <= strings.Keys
  {
    adj[n] == ListOf(start, n) + (if n.value in done then ToNodes(strings[n.value]) else [])
  }

  /** The loop invariant of the conversion: `adj` is `start` with the string keys in `done` merged in. */
  ghost predicate ConvertedSoFar(start: AdjList, strings: StringAdjList, done: set<string>, adj: AdjList)
  {
    && done <= strings.Keys
    && adj.Keys == start.Keys + NodesOf(done)
    && forall n :: n in adj ==> EntrySoFar(start, strings, done, adj, n)
  }

  /** Merging one more key gives every entry its converted list. */
  lemma ConvertedSoFarStepEntry(start: AdjList, strings: StringAdjList, done: set<string>, adj: AdjList,
                                key: string, n: Node, after: AdjList)
    requires done <= strings.Keys && key in strings && key !in done && start.Keys <= adj.Keys
    requires Node(key) in adj ==> EntrySoFar(start, strings, done, adj, Node(key))
    requires n in adj ==> EntrySoFar(start, strings, done, adj, n)
    requires after == WithNode(adj, Node(key))[Node(key) := ListOf(adj, Node(key)) + ToNodes(strings[key])]
    requires n in after
    ensures EntrySoFar(start, strings, done + {key}, after, n)
  {
  }

  /** Merging one more key keeps the conversion invariant. */
  lemma ConvertedSoFarStep(start: AdjList, strings: StringAdjList, done: set<string>, adj: AdjList, key: string)
    requires ConvertedSoFar(start, strings, done, adj) && key in strings && key !in done
    ensures var w := WithNode(adj, Node(key));
      ConvertedSoFar(start, strings, done + {key}, w[Node(key) := w[Node(key)] + ToNodes(strings[key])])
  {
    var w := WithNode(adj, Node(key));
    var after := w[Node(key) := w[Node(key)] + ToNodes(strings[key])];
    assert w[Node(key)] == ListOf(adj, Node(key));
    NodesOfAdd(done, key);
    forall n | n in after
      ensures EntrySoFar(start, strings, done + {key}, after, n)
    {
      ConvertedSoFarStepEntry(start, strings, done, adj, key, n, after);
    }
  }

  /** Once every key is merged, the invariant is the converted map. */
  lemma ConvertedSoFarComplete(start: AdjList, strings: StringAdjList, done: set<string>, adj: AdjList)
    requires ConvertedSoFar(start, strings, done, adj) && done == strings.Keys
    ensures adj == Converted(start, strings)
  {
  }

  // ---------------------------------------------------------------------------------------------
  // Imperative operations

  /** The scan of `getNode`: the first key whose value is `value`, or `None`. */
  method FindKey(adj: AdjList, value: string) returns (r: Option<Node>)
    ensures r == Lookup(adj, value)
  {
    var unseen := adj.Keys;
    while unseen != {}
      invariant unseen <= adj.Keys
      invariant forall k :: k in adj && k !in unseen ==> k.value != value
      decreases unseen
    {
      var k :| k in unseen;
      if k.value == value {
        return Some(k);
      }
      unseen := unseen - {k};
    }
    return None;
  }

  /** The duplicate scan of `addEdge`: does `target` occur in `neighbors`? */
  method ContainsNode(neighbors: seq<Node>, target: Node) returns (found: bool)
    ensures found <==> target in neighbors
  {
    for i := 0 to |neighbors|
      invariant target !in neighbors[..i]
    {
      if neighbors[i] == target {
        return true;
      }
    }
    return false;
  }

  /** The inner loop of the conversion: one node per neighbour string, in order. */
  method ToNodeList(values: seq<string>) returns (neighbors: seq<Node>)
    ensures neighbors == ToNodes(values)
  {
    neighbors := [];
    for j := 0 to |values|
      invariant |neighbors| == j
      invariant forall i :: 0 <= i < j ==> neighbors[i] == Node(values[i])
    {
      neighbors := neighbors + [Node(values[j])];
    }
  }

  class DirectedGraph {
    /** The forward adjacency map. */
    var adjList: AdjList

    /**
     * An empty or Node-keyed input is adopted as is; a non-empty string-keyed input is converted
     * into a fresh map; anything else yields an empty graph.
     */
    constructor (input: GraphInput)
      ensures adjList == InitialAdjacency(input)
    {
      if input.NodeKeyed? {
        adjList := input.nodes;
      } else {
        adjList := map[];
      }
      new;
      if input.StringKeyed? && |input.strings| > 0 {
        ConvertStringMap(input.strings);
      }
    }

    /** `addNode(Node)`: put an empty list for an absent node. */
    method AddNode(node: Node)
      modifies this
      ensures adjList == WithNode(old(adjList), node)
    {
      if node !in adjList {
        adjList := adjList[node := []];
      }
    }

    /** `addNode(String)`: add `Node(value)` only when no key carries `value`. */
    method AddNodeByValue(value: string)
      modifies this
      ensures adjList == WithNode(old(adjList), Node(value))
    {
      var existing := GetNode(value);
      if existing.None? {
        adjList := adjList[Node(value) := []];
      }
    }

    /** `addEdge(src, dest)` with the destination resolved to the destination node. */
    method AddEdge(src: string, dest: string)
      modifies this
      ensures adjList == EdgeAdded(old(adjList), src, dest)
    {
      var srcNode := GetNode(src);
      if srcNode.None? {
        AddNodeByValue(src);
        srcNode := GetNode(src);
      }
      var destNode := GetNode(dest);
      if destNode.None? {
        AddNodeByValue(dest);
        destNode := GetNode(dest);
      }
      var neighbors := GetNeighbors(srcNode.value).value;
      var present := ContainsNode(neighbors, destNode.value);
      if !present {
        adjList := adjList[srcNode.value := neighbors + [destNode.value]];
      }
    }

    /** `addEdge(src, dest)` as written: a freshly created destination is resolved with `getNode(src)`. */
    method AddEdgeAsWritten(src: string, dest: string)
      modifies this
      ensures adjList == EdgeAddedAsWritten(old(adjList), src, dest)
    {
      var srcNode := GetNode(src);
      if srcNode.None? {
        AddNodeByValue(src);
        srcNode := GetNode(src);
      }
      var destNode := GetNode(dest);
      if destNode.None? {
        AddNodeByValue(dest);
        destNode := GetNode(src);
      }
      var neighbors := GetNeighbors(srcNode.value).value;
      var present := ContainsNode(neighbors, destNode.value);
      if !present {
        adjList := adjList[srcNode.value := neighbors + [destNode.value]];
      }
    }

    /** `getNeighbors(node)`: the stored list of a key, `None` (null) for anything else. */
    function GetNeighbors(node: Node): (r: Option<seq<Node>>)
      reads this
      ensures r.Some? <==> node in adjList
      ensures r.Some? ==> r.value == adjList[node]
    {
      if node in adjList then Some(adjList[node]) else None
    }

    /** `getNode(value)`: the key whose value is `value`, or `None` (null). */
    method GetNode(value: string) returns (r: Option<Node>)
      ensures r == Lookup(adjList, value)
    {
      r := FindKey(adjList, value);
    }

    /** `convertStringMapToAdjacencyList`: merge a string-keyed map into the forward map. */
    method ConvertStringMap(strings: StringAdjList)
      modifies this
      ensures adjList == Converted(old(adjList), strings)
    {
      var pending := strings.Keys;
      ghost var done: set<string> := {};
      while pending != {}
        invariant done !! pending && done + pending == strings.Keys
        invariant ConvertedSoFar(old(adjList), strings, done, adjList)
        decreases pending
      {
        var key :| key in pending;
        var source := Node(key);
        ConvertedSoFarStep(old(adjList), strings, done, adjList, key);
        AddNode(source);
        var neighbors := ToNodeList(strings[key]);
        adjList := adjList[source := adjList[source] + neighbors];
        pending := pending - {key};
        done := done + {key};
      }
      ConvertedSoFarComplete(old(adjList), strings, done, adjList);
    }
  }
}
