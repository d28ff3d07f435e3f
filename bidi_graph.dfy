/**
 * The bidirectional graph (src/BiDiGraph.java): a forward graph together with its inverted
 * adjacency map, in which every edge `u -> v` of the forward map is recorded as `v -> u`.
 */
module BiDiGraphs {
  import opened Wrappers
  import opened Nodes
  import opened DirectedGraphs

  /** How often `v` occurs in the forward list of `u` (zero when `u` is not a key). */
  function Occurrences(adj: AdjList, u: Node, v: Node): (r: nat)
    ensures r > 0 <==> Edge(adj, u, v)
  {
    if u in adj then multiset(adj[u])[v] else 0
  }

  /**
   * `rev` is the inversion of `adj`: its keys are exactly the nodes that occur in some forward
   * list, and `u` occurs in `rev[v]` as often as `v` occurs in `adj[u]`. The order inside a reverse
   * list follows the iteration order of the forward keys, which is unspecified, so it is not fixed.
   */
  ghost predicate IsInversion(adj: AdjList, rev: AdjList)
  {
    && rev.Keys == Targets(adj)
    && forall v, u :: v in rev ==> multiset(rev[v])[u] == Occurrences(adj, u, v)
  }

  /** The keys of `adj` whose list is not empty. */
  function Sources(adj: AdjList): set<Node>
  {
    set u | u in adj && adj[u] != []
  }

  // ---------------------------------------------------------------------------------------------
  // Lemmas about inversion

  /** A node that occurs in no forward list has no occurrences anywhere. */
  lemma NotTargetNoOccurrences(adj: AdjList, u: Node, v: Node)
    requires v !in Targets(adj)
    ensures Occurrences(adj, u, v) == 0
  {
  }

  /** The reverse map records exactly the forward edges, turned around. */
  lemma InversionEdges(adj: AdjList, rev: AdjList, u: Node, v: Node)
    requires IsInversion(adj, rev)
    ensures Edge(rev, v, u) <==> Edge(adj, u, v)
  {
    if Edge(adj, u, v) {
      EdgeTargetInTargets(adj, u, v);
      assert multiset(rev[v])[u] > 0;
    }
    if Edge(rev, v, u) {
      assert multiset(rev[v])[u] > 0;
    }
  }

  /** Every list of the reverse map is non-empty. */
  lemma InversionListsNonEmpty(adj: AdjList, rev: AdjList, v: Node)
    requires IsInversion(adj, rev) && v in rev
    ensures rev[v] != []
  {
    var u :| u in adj && v in adj[u];
    assert Occurrences(adj, u, v) > 0;
    assert multiset(rev[v])[u] > 0;
  }

  /** The inversion of a map is unique up to the order inside each list. */
  lemma InversionUnique(adj: AdjList, r1: AdjList, r2: AdjList)
    requires IsInversion(adj, r1) && IsInversion(adj, r2)
    ensures r1.Keys == r2.Keys
    ensures forall v :: v in r1 ==> multiset(r1[v]) == multiset(r2[v])
  {
  }

  /**
   * Inverting the inversion gives back every node with a non-empty forward list, with the same
   * neighbours as often as before; nodes with an empty list are lost.
   */
  lemma DoubleInversion(adj: AdjList, rev: AdjList, back: AdjList)
    requires IsInversion(adj, rev) && IsInversion(rev, back)
    ensures back.Keys == Sources(adj)
    ensures forall u :: u in back ==> multiset(back[u]) == multiset(adj[u])
  {
    forall u | u in back
      ensures u in Sources(adj)
    {
      var v :| v in rev && u in rev[v];
      InversionEdges(adj, rev, u, v);
    }
    forall u | u in Sources(adj)
      ensures u in back
    {
      var v := adj[u][0];
      InversionEdges(adj, rev, u, v);
      EdgeTargetInTargets(rev, v, u);
    }
    forall u | u in back
      ensures multiset(back[u]) == multiset(adj[u])
    {
      forall v
        ensures multiset(back[u])[v] == multiset(adj[u])[v]
      {
        if v !in rev {
          NotTargetNoOccurrences(adj, u, v);
        }
      }
    }
  }

  /** A forward key with no incoming edge is not a key of the reverse map, and vice versa. */
  lemma InversionLookup(adj: AdjList, rev: AdjList, value: string)
    requires IsInversion(adj, rev)
    ensures Lookup(rev, value).None? <==> forall u :: !Edge(adj, u, Node(value))
  {
    if Lookup(rev, value).Some? {
      InversionListsNonEmpty(adj, rev, Node(value));
      InversionEdges(adj, rev, rev[Node(value)][0], Node(value));
    } else {
      forall u
        ensures !Edge(adj, u, Node(value))
      {
        if Edge(adj, u, Node(value)) {
          EdgeTargetInTargets(adj, u, Node(value));
        }
      }
    }
  }

  /** Giving a new key an empty list keeps an inversion. */
  lemma InversionAddEmptyKey(adj: AdjList, rev: AdjList, u: Node)
    requires IsInversion(adj, rev) && u !in adj
    ensures IsInversion(adj[u := []], rev)
  {
    var adj' := adj[u := []];
    forall w | w in Targets(adj')
      ensures w in Targets(adj)
    {
      var x :| x in adj' && w in adj'[x];
      assert x in adj && w in adj[x];
    }
    forall w | w in Targets(adj)
      ensures w in Targets(adj')
    {
      var x :| x in adj && w in adj[x];
      assert x in adj' && w in adj'[x];
    }
    forall v, x | v in rev
      ensures multiset(rev[v])[x] == Occurrences(adj', x, v)
    {
    }
  }

  /** Appending `v` to the list of `u` adds `v` to the targets. */
  lemma TargetsAppend(adj: AdjList, u: Node, v: Node)
    requires u in adj
    ensures Targets(adj[u := adj[u] + [v]]) == Targets(adj) + {v}
  {
    var adj' := adj[u := adj[u] + [v]];
    forall w | w in Targets(adj')
      ensures w in Targets(adj) + {v}
    {
      var x :| x in adj' && w in adj'[x];
      if x == u && w != v {
        assert w in adj[u];
      }
    }
    forall w | w in Targets(adj) + {v}
      ensures w in Targets(adj')
    {
      if w == v {
        EdgeTargetInTargets(adj', u, v);
      } else {
        var x :| x in adj && w in adj[x];
        assert w in adj'[x];
      }
    }
  }

  /**
   * The step of `reverse`: appending `v` to the forward list of `u` is matched by appending `u` to
   * the reverse list of `v`, created empty if absent.
   */
  lemma InversionAppend(adj: AdjList, rev: AdjList, u: Node, v: Node)
    requires IsInversion(adj, rev) && u in adj
    ensures IsInversion(adj[u := adj[u] + [v]], rev[v := ListOf(rev, v) + [u]])
  {
    var adj' := adj[u := adj[u] + [v]];
    var rev' := rev[v := ListOf(rev, v) + [u]];
    TargetsAppend(adj, u, v);
    forall w, x | w in rev'
      ensures multiset(rev'[w])[x] == Occurrences(adj', x, w)
    {
      if w == v {
        assert multiset(rev'[v]) == multiset(ListOf(rev, v)) + multiset{u};
        if v !in rev {
          NotTargetNoOccurrences(adj, x, v);
        }
        if x == u {
          assert multiset(adj'[u]) == multiset(adj[u]) + multiset{v};
        }
      } else if x == u {
        assert multiset(adj'[u]) == multiset(adj[u]) + multiset{v};
      }
    }
  }

  /** Replacing the entry of `u` by its full list turns the restriction to `done` into that to `done + {u}`. */
  lemma RestrictGrow(adj: AdjList, done: set<Node>, u: Node)
    requires u in adj
    ensures Restrict(adj, done)[u := adj[u]] == Restrict(adj, done + {u})
  {
  }

  // ---------------------------------------------------------------------------------------------
  // The class

  class BiDiGraph {
    /** The forward graph built by the superclass constructor. */
    const forward: DirectedGraph
    /** The inverted adjacency map. */
    var reverseAdjList: AdjList

    /** The reverse map is the inversion of the forward map. */
    ghost predicate Valid()
      reads this, forward
    {
      IsInversion(forward.adjList, reverseAdjList)
    }

    /** Build the forward graph from `input`, then invert it. */
    constructor (input: GraphInput)
      ensures fresh(forward)
      ensures forward.adjList == InitialAdjacency(input)
      ensures Valid()
    {
      forward := new DirectedGraph(input);
      new;
      Reverse(forward.adjList);
    }

    /**
     * `reverse(adj)`: record every edge `u -> v` of `adj` as `v -> u` in a fresh map, then replace
     * the reverse map by it. The forward graph is a different object and is left alone.
     */
    method Reverse(adj: AdjList)
      modifies this
      ensures IsInversion(adj, reverseAdjList)
      ensures unchanged(forward)
    {
      var reversed: AdjList := map[];
      var pending := adj.Keys;
      ghost var done: set<Node> := {};
      assert Restrict(adj, done) == map[];
      while pending != {}
        invariant done !! pending && done + pending == adj.Keys
        invariant IsInversion(Restrict(adj, done), reversed)
        decreases pending
      {
        var srcNode :| srcNode in pending;
        var neighbors := adj[srcNode];
        ghost var prefix := Restrict(adj, done);
        InversionAddEmptyKey(prefix, reversed, srcNode);
        for i := 0 to |neighbors|
          invariant IsInversion(prefix[srcNode := neighbors[..i]], reversed)
        {
          var destNode := neighbors[i];
          InversionAppend(prefix[srcNode := neighbors[..i]], reversed, srcNode, destNode);
          assert neighbors[..i + 1] == neighbors[..i] + [destNode];
          assert prefix[srcNode := neighbors[..i]][srcNode := neighbors[..i] + [destNode]]
              == prefix[srcNode := neighbors[..i + 1]];
          var list := if destNode in reversed then reversed[destNode] else [];
          reversed := reversed[destNode := list + [srcNode]];
        }
        assert neighbors[..|neighbors|] == neighbors;
        RestrictGrow(adj, done, srcNode);
        pending := pending - {srcNode};
        done := done + {srcNode};
      }
      MapsEqual(Restrict(adj, done), adj);
      reverseAdjList := reversed;
    }

    /** `getReverseNode(value)`: the reverse key whose value is `value`, or `None` (null). */
    method GetReverseNode(value: string) returns (r: Option<Node>)
      ensures r == Lookup(reverseAdjList, value)
    {
      r := FindKey(reverseAdjList, value);
    }

    /** `getReversedNeighbors(node)`: the stored reverse list of a key, `None` (null) for anything else. */
    function GetReversedNeighbors(node: Node): (r: Option<seq<Node>>)
      reads this
      ensures r.Some? <==> node in reverseAdjList
      ensures r.Some? ==> r.value == reverseAdjList[node]
    {
      if node in reverseAdjList then Some(reverseAdjList[node]) else None
    }
  }

  /** On a valid graph, the reversed neighbours of a node are exactly its forward predecessors. */
  lemma ReversedNeighborsArePredecessors(g: BiDiGraph, node: Node, u: Node)
    requires g.Valid()
    ensures (g.GetReversedNeighbors(node).Some? && u in g.GetReversedNeighbors(node).value)
        <==> Edge(g.forward.adjList, u, node)
  {
    InversionEdges(g.forward.adjList, g.reverseAdjList, u, node);
  }
}
