/**
 * Paths along forward edges: the meaning of "a path from src to dest exists", which the
 * bidirectional search documents as its result.
 */
module Reachability {
  import opened Nodes
  import opened DirectedGraphs

  /** `p` is a non-empty walk whose consecutive nodes are joined by forward edges. */
  ghost predicate IsPath(adj: AdjList, p: seq<Node>)
    decreases |p|
  {
    |p| > 0 && (|p| == 1 || (Edge(adj, p[0], p[1]) && IsPath(adj, p[1..])))
  }

  /** `b` can be reached from `a` along zero or more forward edges. */
  ghost predicate Reachable(adj: AdjList, a: Node, b: Node)
  {
    exists p :: IsPath(adj, p) && p[0] == a && p[|p| - 1] == b
  }

  /** Every node reaches itself. */
  lemma ReachableReflexive(adj: AdjList, a: Node)
    ensures Reachable(adj, a, a)
  {
    assert IsPath(adj, [a]);
  }

  /** A path followed by an edge out of its last node is a path. */
  lemma {:induction false} PathExtend(adj: AdjList, p: seq<Node>, c: Node)
    requires IsPath(adj, p) && Edge(adj, p[|p| - 1], c)
    ensures IsPath(adj, p + [c])
    decreases |p|
  {
    if |p| == 1 {
      assert IsPath(adj, [c]);
      assert (p + [c])[1..] == [c];
    } else {
      PathExtend(adj, p[1..], c);
      assert (p + [c])[1..] == p[1..] + [c];
    }
  }

  /** Two paths that meet at a node join into one. */
  lemma {:induction false} PathJoin(adj: AdjList, p: seq<Node>, q: seq<Node>)
    requires IsPath(adj, p) && IsPath(adj, q) && p[|p| - 1] == q[0]
    ensures IsPath(adj, p + q[1..])
    decreases |p|
  {
    if |p| == 1 {
      assert p + q[1..] == q;
    } else {
      PathJoin(adj, p[1..], q);
      assert (p + q[1..])[1..] == p[1..] + q[1..];
    }
  }

  /** Reachability extends by one edge at the end. */
  lemma ReachableStep(adj: AdjList, a: Node, b: Node, c: Node)
    requires Reachable(adj, a, b) && Edge(adj, b, c)
    ensures Reachable(adj, a, c)
  {
    var p :| IsPath(adj, p) && p[0] == a && p[|p| - 1] == b;
    PathExtend(adj, p, c);
    var q := p + [c];
    assert q[0] == a && q[|q| - 1] == c;
  }

  /** Reachability is transitive. */
  lemma ReachableTransitive(adj: AdjList, a: Node, b: Node, c: Node)
    requires Reachable(adj, a, b) && Reachable(adj, b, c)
    ensures Reachable(adj, a, c)
  {
    var p :| IsPath(adj, p) && p[0] == a && p[|p| - 1] == b;
    var q :| IsPath(adj, q) && q[0] == b && q[|q| - 1] == c;
    PathJoin(adj, p, q);
    var r := p + q[1..];
    assert r[0] == a && r[|r| - 1] == c;
  }

  /** `s` is closed under forward edges. */
  ghost predicate ClosedForward(adj: AdjList, s: set<Node>)
  {
    forall x, y :: x in s && Edge(adj, x, y) ==> y in s
  }

  /** `s` is closed under backward edges. */
  ghost predicate ClosedBackward(adj: AdjList, s: set<Node>)
  {
    forall x, y :: y in s && Edge(adj, x, y) ==> x in s
  }

  lemma {:induction false} PathStaysForward(adj: AdjList, s: set<Node>, p: seq<Node>)
    requires IsPath(adj, p) && p[0] in s && ClosedForward(adj, s)
    ensures p[|p| - 1] in s
    decreases |p|
  {
    if |p| > 1 {
      PathStaysForward(adj, s, p[1..]);
    }
  }

  lemma {:induction false} PathStaysBackward(adj: AdjList, s: set<Node>, p: seq<Node>)
    requires IsPath(adj, p) && p[|p| - 1] in s && ClosedBackward(adj, s)
    ensures p[0] in s
    decreases |p|
  {
    if |p| > 1 {
      PathStaysBackward(adj, s, p[1..]);
    }
  }

  /** A set closed under forward edges holds everything reachable from its members. */
  lemma ClosedForwardHoldsReachable(adj: AdjList, s: set<Node>, a: Node, b: Node)
    requires a in s && ClosedForward(adj, s) && Reachable(adj, a, b)
    ensures b in s
  {
    var p :| IsPath(adj, p) && p[0] == a && p[|p| - 1] == b;
    PathStaysForward(adj, s, p);
  }

  /** A set closed under backward edges holds everything that reaches its members. */
  lemma ClosedBackwardHoldsReaching(adj: AdjList, s: set<Node>, a: Node, b: Node)
    requires b in s && ClosedBackward(adj, s) && Reachable(adj, a, b)
    ensures a in s
  {
    var p :| IsPath(adj, p) && p[0] == a && p[|p| - 1] == b;
    PathStaysBackward(adj, s, p);
  }
}
