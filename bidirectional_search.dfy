/**
 * Bidirectional breadth-first reachability (src/BidirectionalSearch.java): one frontier walks
 * forward edges from the source, the other walks the reverse map from the destination, and the
 * search succeeds when a node taken off one queue has already been visited by the other side.
 */
module BidirectionalSearch {
  import opened Nodes
  import opened DirectedGraphs
  import opened Reachability
  import opened BiDiGraphs

  /**
   * What `search` does: it returns a boolean, or it fails because a node it takes off a queue has
   * no list in the map it walks, and the `null` returned for that list is iterated.
   */
  datatype Outcome = Returned(found: bool) | NullNeighbourList

  /** The neighbours the inner loop enqueues: those not yet visited, in order. */
  function Unvisited(neighbors: seq<Node>, visited: set<Node>): (r: seq<Node>)
    ensures forall x :: x in r <==> x in neighbors && x !in visited
    ensures |r| <= |neighbors|
  {
    if neighbors == [] then []
    else
      var last := neighbors[|neighbors| - 1];
      assert neighbors == neighbors[..|neighbors| - 1] + [last];
      Unvisited(neighbors[..|neighbors| - 1], visited) + (if last in visited then [] else [last])
  }

  /** The inner loop of either direction: append each unvisited neighbour to the queue. */
  method EnqueueUnvisited(queue: seq<Node>, neighbors: seq<Node>, visited: set<Node>) returns (q: seq<Node>)
    ensures q == queue + Unvisited(neighbors, visited)
  {
    q := queue;
    for i := 0 to |neighbors|
      invariant q == queue + Unvisited(neighbors[..i], visited)
    {
      assert neighbors[..i + 1][..i] == neighbors[..i];
      if neighbors[i] !in visited {
        q := q + [neighbors[i]];
      }
    }
    assert neighbors[..|neighbors|] == neighbors;
  }

  /**
   * The invariant of one direction of the search over map `m` from `root`: every queued and every
   * visited node is reachable from `root`, and every edge out of a visited node leads to a node
   * that is visited or still queued.
   */
  ghost predicate Frontier(m: AdjList, root: Node, queue: seq<Node>, visited: set<Node>)
  {
    && (forall x :: x in queue ==> Reachable(m, root, x))
    && (forall x :: x in visited ==> Reachable(m, root, x))
    && (forall x, y :: x in visited && Edge(m, x, y) ==> y in visited || y in queue)
  }

  /** The frontier at the start: only the root is queued. */
  lemma FrontierInit(m: AdjList, root: Node)
    ensures Frontier(m, root, [root], {})
  {
  }

  /** Taking the head off the queue, visiting it and enqueueing its unvisited neighbours keeps the invariant. */
  lemma FrontierStep(m: AdjList, root: Node, queue: seq<Node>, visited: set<Node>)
    requires Frontier(m, root, queue, visited) && queue != [] && queue[0] in m
    ensures var visited' := visited + {queue[0]};
      Frontier(m, root, queue[1..] + Unvisited(m[queue[0]], visited'), visited')
  {
    var current := queue[0];
    var visited' := visited + {current};
    var queue' := queue[1..] + Unvisited(m[current], visited');
    assert queue == [current] + queue[1..];
    forall y | y in queue'
      ensures Reachable(m, root, y)
    {
      if y !in queue[1..] {
        ReachableStep(m, root, current, y);
      }
    }
  }

  /** The nodes the forward walk can ever enqueue: the source and every node in some forward list. */
  ghost function Universe(adj: AdjList, s: Node): set<Node>
  {
    {s} + Targets(adj)
  }

  /**
   * The forward side's invariant: the frontier invariant, everything within the universe, and
   * every queue entry from position `stale` on enqueued since the visited set last grew, hence
   * unvisited. Popping a visited entry therefore shortens that stale prefix.
   */
  ghost predicate ForwardSide(adj: AdjList, s: Node, stale: nat, queue: seq<Node>, visited: set<Node>)
  {
    && Frontier(adj, s, queue, visited)
    && (forall x :: x in queue ==> x in Universe(adj, s))
    && visited <= Universe(adj, s)
    && stale <= |queue|
    && forall i :: stale <= i < |queue| ==> queue[i] !in visited
  }

  /**
   * One forward step keeps the forward invariant and makes progress: either the visited set grows
   * within the universe, or it stays and the stale prefix shrinks.
   */
  lemma ForwardStep(adj: AdjList, s: Node, stale: nat, queue: seq<Node>, visited: set<Node>)
    requires ForwardSide(adj, s, stale, queue, visited) && queue != [] && queue[0] in adj
    ensures queue[0] in visited ==> stale > 0
    ensures var visited' := visited + {queue[0]};
      var stale' := if queue[0] in visited then stale - 1 else |queue| - 1;
      && ForwardSide(adj, s, stale', queue[1..] + Unvisited(adj[queue[0]], visited'), visited')
      && (queue[0] in visited ==> stale' < stale)
      && (queue[0] !in visited ==> Universe(adj, s) - visited' < Universe(adj, s) - visited)
  {
    var current := queue[0];
    var visited' := visited + {current};
    var added := Unvisited(adj[current], visited');
    var queue' := queue[1..] + added;
    FrontierStep(adj, s, queue, visited);
    forall x | x in added
      ensures x in Universe(adj, s)
    {
      EdgeTargetInTargets(adj, current, x);
    }
    assert forall i :: |queue| - 1 <= i < |queue'| ==> queue'[i] in added;
  }

  /** When the forward queue runs dry, everything reachable from the source was visited. */
  lemma FrontierExhausted(m: AdjList, root: Node, visited: set<Node>, x: Node)
    requires Frontier(m, root, [], visited) && root in visited && Reachable(m, root, x)
    ensures x in visited
  {
    ClosedForwardHoldsReachable(m, visited, root, x);
  }

  /** A path in the inverted map, read backwards, is a path in the forward map. */
  lemma {:induction false} InversionReversesPath(adj: AdjList, rev: AdjList, p: seq<Node>)
    requires IsInversion(adj, rev) && IsPath(rev, p)
    ensures Reachable(adj, p[|p| - 1], p[0])
    decreases |p|
  {
    if |p| == 1 {
      ReachableReflexive(adj, p[0]);
    } else {
      InversionReversesPath(adj, rev, p[1..]);
      InversionEdges(adj, rev, p[1], p[0]);
      ReachableStep(adj, p[|p| - 1], p[1], p[0]);
    }
  }

  /** A path in the forward map, read backwards, is a path in the inverted map. */
  lemma {:induction false} InversionKeepsPath(adj: AdjList, rev: AdjList, p: seq<Node>)
    requires IsInversion(adj, rev) && IsPath(adj, p)
    ensures Reachable(rev, p[|p| - 1], p[0])
    decreases |p|
  {
    if |p| == 1 {
      ReachableReflexive(rev, p[0]);
    } else {
      InversionKeepsPath(adj, rev, p[1..]);
      InversionEdges(adj, rev, p[0], p[1]);
      ReachableStep(rev, p[|p| - 1], p[1], p[0]);
    }
  }

  /** Reachability in the inverted map is exactly reachability in the forward map, turned around. */
  lemma InversionReversesReachability(adj: AdjList, rev: AdjList, a: Node, b: Node)
    requires IsInversion(adj, rev)
    ensures Reachable(rev, a, b) <==> Reachable(adj, b, a)
  {
    if Reachable(rev, a, b) {
      var p :| IsPath(rev, p) && p[0] == a && p[|p| - 1] == b;
      InversionReversesPath(adj, rev, p);
    }
    if Reachable(adj, b, a) {
      var p :| IsPath(adj, p) && p[0] == b && p[|p| - 1] == a;
      InversionKeepsPath(adj, rev, p);
    }
  }

  /**
   * When one side has run dry without the visited sets meeting, there is no path: a dry forward
   * side has visited everything reachable from the source, a dry reverse side everything that
   * reaches the destination.
   */
  lemma NoPathWhenExhausted(adj: AdjList, rev: AdjList, s: Node, d: Node,
                            fq: seq<Node>, fv: set<Node>, rq: seq<Node>, rv: set<Node>)
    requires IsInversion(adj, rev)
    requires Frontier(adj, s, fq, fv) && Frontier(rev, d, rq, rv)
    requires s in fv && d in rv && fv !! rv && (fq == [] || rq == [])
    ensures !Reachable(adj, s, d)
  {
    if fq == [] {
      if Reachable(adj, s, d) {
        FrontierExhausted(adj, s, fv, d);
      }
    } else {
      forall x, y | y in rv && Edge(adj, x, y)
        ensures x in rv
      {
        InversionEdges(adj, rev, x, y);
      }
      if Reachable(adj, s, d) {
        ClosedBackwardHoldsReaching(adj, rv, s, d);
      }
    }
  }

  /**
   * The walk never meets a missing list: the destination is a key of the reverse map, every node
   * reachable from the source is a forward key, and every node other than the source that the
   * reverse walk can reach is a reverse key.
   */
  ghost predicate WalkDefined(adj: AdjList, rev: AdjList, s: Node, d: Node)
  {
    && d in rev
    && (forall x :: Reachable(adj, s, x) ==> x in adj)
    && (forall x :: Reachable(rev, d, x) && x != s ==> x in rev)
  }

  /** A node reachable from the source that is not a forward key makes the walk undefined. */
  lemma ForwardMissing(adj: AdjList, rev: AdjList, s: Node, d: Node, x: Node)
    requires Reachable(adj, s, x) && x !in adj
    ensures !WalkDefined(adj, rev, s, d)
  {
  }

  /** A node other than the source that the reverse walk reaches without a reverse list makes the walk undefined. */
  lemma ReverseMissing(adj: AdjList, rev: AdjList, s: Node, d: Node, x: Node)
    requires Reachable(rev, d, x) && x != s && x !in rev
    ensures !WalkDefined(adj, rev, s, d)
  {
  }

  /** Some node is reachable forward from `s` and along the reverse map from `d`. */
  ghost predicate Meet(adj: AdjList, rev: AdjList, s: Node, d: Node)
  {
    exists x :: Reachable(adj, s, x) && Reachable(rev, d, x)
  }

  /** On a valid graph, meeting is the existence of a path. */
  lemma MeetIsPath(adj: AdjList, rev: AdjList, s: Node, d: Node)
    requires IsInversion(adj, rev)
    ensures Meet(adj, rev, s, d) <==> Reachable(adj, s, d)
  {
    if Meet(adj, rev, s, d) {
      var x :| Reachable(adj, s, x) && Reachable(rev, d, x);
      InversionReversesReachability(adj, rev, d, x);
      ReachableTransitive(adj, s, x, d);
    }
    if Reachable(adj, s, d) {
      ReachableReflexive(rev, d);
    }
  }

  /** A node reached by both sides witnesses a meeting, and on a valid graph a path. */
  lemma FoundMeets(adj: AdjList, rev: AdjList, s: Node, d: Node, x: Node)
    requires Reachable(adj, s, x) && Reachable(rev, d, x)
    ensures Meet(adj, rev, s, d)
    ensures IsInversion(adj, rev) ==> Reachable(adj, s, d)
  {
    if IsInversion(adj, rev) {
      MeetIsPath(adj, rev, s, d);
    }
  }

  /** Each side visiting a node the other side has not visited keeps the visited sets apart. */
  lemma DisjointAfterRound(fv: set<Node>, rv: set<Node>, f: Node, r: Node)
    requires fv !! rv && f !in rv && r !in fv + {f}
    ensures fv + {f} !! rv + {r}
  {
  }

  /**
   * The loop invariant of the search. Before the first round each queue holds its endpoint and
   * nothing is visited; afterwards both endpoints are visited, on their own side, and they differ.
   * Each side keeps its frontier invariant, and the visited sets never meet.
   */
  ghost predicate SearchState(adj: AdjList, rev: AdjList, s: Node, d: Node, started: bool, stale: nat,
                              fq: seq<Node>, fv: set<Node>, rq: seq<Node>, rv: set<Node>)
  {
    && (!started ==> fq == [s] && rq == [d] && fv == {} && rv == {})
    && (started ==> s in fv && d in rv && s != d)
    && ForwardSide(adj, s, stale, fq, fv)
    && Frontier(rev, d, rq, rv)
    && fv !! rv
  }

  /**
   * A round that neither meets the other side nor hits a missing list keeps the invariant, and
   * makes progress on the forward side.
   */
  lemma RoundKeepsState(adj: AdjList, rev: AdjList, s: Node, d: Node, started: bool, stale: nat,
                        fq: seq<Node>, fv: set<Node>, rq: seq<Node>, rv: set<Node>,
                        stale': nat, fq': seq<Node>, fv': set<Node>, rq': seq<Node>, rv': set<Node>)
    requires SearchState(adj, rev, s, d, started, stale, fq, fv, rq, rv)
    requires fq != [] && fq[0] in adj && fq[0] !in rv
    requires rq != [] && rq[0] in rev && rq[0] !in fv + {fq[0]}
    requires fv' == fv + {fq[0]} && fq' == fq[1..] + Unvisited(adj[fq[0]], fv')
    requires rv' == rv + {rq[0]} && rq' == rq[1..] + Unvisited(rev[rq[0]], rv')
    requires stale' == if fq[0] in fv then stale - 1 else |fq| - 1
    ensures SearchState(adj, rev, s, d, true, stale', fq', fv', rq', rv')
    ensures fq[0] in fv ==> fv' == fv && stale' < stale
    ensures fq[0] !in fv ==> Universe(adj, s) - fv' < Universe(adj, s) - fv
  {
    ForwardStep(adj, s, stale, fq, fv);
    FrontierStep(rev, d, rq, rv);
    DisjointAfterRound(fv, rv, fq[0], rq[0]);
  }

  /**
   * `search(src, dest)`. Unresolved endpoints are enqueued as `null` in the source; the first round
   * then iterates the `null` list of that node, which is the failure modelled up front here.
   */
  method Search(g: BiDiGraph, src: string, dest: string) returns (r: Outcome)
    ensures Lookup(g.forward.adjList, src).None? || Lookup(g.reverseAdjList, dest).None? ==> r == NullNeighbourList
    ensures r == Returned(true) ==> Meet(g.forward.adjList, g.reverseAdjList, Node(src), Node(dest))
    ensures g.Valid() && r.Returned? ==> (r.found <==> Reachable(g.forward.adjList, Node(src), Node(dest)))
    ensures WalkDefined(g.forward.adjList, g.reverseAdjList, Node(src), Node(dest)) ==> r.Returned?
    ensures src == dest && Node(src) in g.forward.adjList && Node(dest) in g.reverseAdjList ==> r == Returned(true)
  {
    var srcNode := g.forward.GetNode(src);
    var destNode := g.GetReverseNode(dest);
    if srcNode.None? || destNode.None? {
      ReachableReflexive(g.forward.adjList, Node(src));
      return NullNeighbourList;
    }
    ghost var adj, rev := g.forward.adjList, g.reverseAdjList;
    ghost var s, d := srcNode.value, destNode.value;
    var forwardQueue := [srcNode.value];
    var reversedQueue := [destNode.value];
    var forwardVisited: set<Node> := {};
    var reversedVisited: set<Node> := {};
    FrontierInit(adj, s);
    FrontierInit(rev, d);
    ReachableReflexive(adj, s);
    ghost var started := false;
    ghost var stale: nat := 0;
    while forwardQueue != [] && reversedQueue != []
      invariant SearchState(adj, rev, s, d, started, stale, forwardQueue, forwardVisited, reversedQueue, reversedVisited)
      decreases Universe(adj, s) - forwardVisited, stale
    {
      ghost var fq0, fv0, rq0, rv0 := forwardQueue, forwardVisited, reversedQueue, reversedVisited;
      // Forward step.
      var currentForward := forwardQueue[0];
      forwardQueue := forwardQueue[1..];
      forwardVisited := forwardVisited + {currentForward};
      if currentForward in reversedVisited {
        FoundMeets(adj, rev, s, d, currentForward);
        return Returned(true);
      }
      var forwardNeighbors := g.forward.GetNeighbors(currentForward);
      if forwardNeighbors.None? {
        ForwardMissing(adj, rev, s, d, currentForward);
        return NullNeighbourList;
      }
      assert forwardNeighbors.value == adj[currentForward];
      forwardQueue := EnqueueUnvisited(forwardQueue, forwardNeighbors.value, forwardVisited);

      // Reverse step.
      var currentReversed := reversedQueue[0];
      reversedQueue := reversedQueue[1..];
      reversedVisited := reversedVisited + {currentReversed};
      if currentReversed in forwardVisited {
        FoundMeets(adj, rev, s, d, currentReversed);
        return Returned(true);
      }
      var reversedNeighbors := g.GetReversedNeighbors(currentReversed);
      if reversedNeighbors.None? {
        ReverseMissing(adj, rev, s, d, currentReversed);
        return NullNeighbourList;
      }
      assert reversedNeighbors.value == rev[currentReversed];
      reversedQueue := EnqueueUnvisited(reversedQueue, reversedNeighbors.value, reversedVisited);
      ghost var stale' := if currentForward in fv0 then stale - 1 else |fq0| - 1;
      RoundKeepsState(adj, rev, s, d, started, stale, fq0, fv0, rq0, rv0,
                      stale', forwardQueue, forwardVisited, reversedQueue, reversedVisited);
      assert Universe(adj, s) - forwardVisited < Universe(adj, s) - fv0
          || (Universe(adj, s) - forwardVisited == Universe(adj, s) - fv0 && stale' < stale);
      stale := stale';
      started := true;
    }
    if g.Valid() {
      NoPathWhenExhausted(adj, rev, s, d, forwardQueue, forwardVisited, reversedQueue, reversedVisited);
    }
    return Returned(false);
  }
}
