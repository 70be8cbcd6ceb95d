/** Finite directed graphs as adjacency lists, paths and mutual reachability.

    A graph maps a node to its successor list.  A successor need not be a key:
    such a node has no successors of its own. */
module Digraph {
  type Node = string
  type Graph = map<Node, seq<Node>>

  /** The successor list the algorithm iterates over: empty when the lookup fails. */
  function Successors(g: Graph, v: Node): seq<Node> {
    if v in g then g[v] else []
  }

  /** Every node the graph mentions, as a key or as a successor. */
  function Vertices(g: Graph): set<Node> {
    g.Keys + set k, i | k in g && 0 <= i < |g[k]| :: g[k][i]
  }

  ghost predicate IsPath(g: Graph, p: seq<Node>) {
    |p| > 0 && forall i :: 0 <= i < |p| - 1 ==> p[i + 1] in Successors(g, p[i])
  }

  ghost predicate PathFromTo(g: Graph, p: seq<Node>, x: Node, y: Node) {
    IsPath(g, p) && p[0] == x && p[|p| - 1] == y
  }

  ghost predicate Reaches(g: Graph, x: Node, y: Node) {
    exists p :: PathFromTo(g, p, x, y)
  }

  /** x and y lie on a common cycle (or are equal). */
  ghost predicate Mutual(g: Graph, x: Node, y: Node) {
    Reaches(g, x, y) && Reaches(g, y, x)
  }

  lemma ReachesRefl(g: Graph, x: Node)
    ensures Reaches(g, x, x)
  {
    assert PathFromTo(g, [x], x, x);
  }

  lemma ReachesEdge(g: Graph, x: Node, y: Node)
    requires y in Successors(g, x)
    ensures Reaches(g, x, y)
  {
    assert PathFromTo(g, [x, y], x, y);
  }

  lemma ReachesTrans(g: Graph, x: Node, y: Node, z: Node)
    requires Reaches(g, x, y) && Reaches(g, y, z)
    ensures Reaches(g, x, z)
  {
    var p :| PathFromTo(g, p, x, y);
    var q :| PathFromTo(g, q, y, z);
    var r := p + q[1..];
    forall i | 0 <= i < |r| - 1 ensures r[i + 1] in Successors(g, r[i]) {
      if i >= |p| - 1 {
        assert r[i + 1] == q[i + 1 - (|p| - 1)];
        assert r[i] == q[i - (|p| - 1)];
      }
    }
    assert PathFromTo(g, r, x, z);
  }

  /** A set closed under successors keeps every node reachable from it. */
  lemma {:induction false} ClosedKeepsPath(g: Graph, s: set<Node>, p: seq<Node>)
    requires forall v, w :: v in s && w in Successors(g, v) ==> w in s
    requires IsPath(g, p) && p[0] in s
    ensures p[|p| - 1] in s
  {
    if |p| > 1 {
      assert p[0 + 1] in Successors(g, p[0]);
      assert IsPath(g, p[1..]) by {
        forall i | 0 <= i < |p[1..]| - 1 ensures p[1..][i + 1] in Successors(g, p[1..][i]) {
          assert p[i + 1 + 1] in Successors(g, p[i + 1]);
        }
      }
      ClosedKeepsPath(g, s, p[1..]);
    }
  }

  lemma ClosedKeepsReach(g: Graph, s: set<Node>, x: Node, y: Node)
    requires forall v, w :: v in s && w in Successors(g, v) ==> w in s
    requires x in s && Reaches(g, x, y)
    ensures y in s
  {
    var p :| PathFromTo(g, p, x, y);
    ClosedKeepsPath(g, s, p);
  }
}
