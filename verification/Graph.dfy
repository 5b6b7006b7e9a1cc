/**
 Directed graphs over the nodes 0..|g|, given by successor lists: the control-flow
 graph of a function, the static call graph, the dependency graph of build jobs.
 */
module Graph {

  type Graph = seq<seq<nat>>

  predicate WellFormed(g: Graph) {
    forall u, k :: 0 <= u < |g| && 0 <= k < |g[u]| ==> g[u][k] < |g|
  }

  predicate Edge(g: Graph, u: nat, w: nat) {
    u < |g| && w < |g| && w in g[u]
  }

  ghost predicate Path(g: Graph, p: seq<nat>) {
    && |p| > 0
    && (forall i :: 0 <= i < |p| ==> p[i] < |g|)
    && (forall i :: 0 <= i < |p| - 1 ==> Edge(g, p[i], p[i + 1]))
  }

  /** v can be reached from u by zero or more edges. */
  ghost predicate Reach(g: Graph, u: nat, v: nat) {
    exists p :: Path(g, p) && p[0] == u && p[|p| - 1] == v
  }

  /** There is a path of at least one edge from u to itself. */
  ghost predicate InCycle(g: Graph, u: nat) {
    exists w: nat :: Edge(g, u, w) && Reach(g, w, u)
  }

  /** u leads to some node that lies on a cycle. */
  ghost predicate ReachesCycle(g: Graph, u: nat) {
    exists c: nat :: Reach(g, u, c) && InCycle(g, c)
  }

  /** No edge leads out of the set s. */
  ghost predicate Closed(g: Graph, s: set<nat>) {
    forall u: nat, w: nat :: u in s && Edge(g, u, w) ==> w in s
  }

  lemma ReachRefl(g: Graph, u: nat)
    requires u < |g|
    ensures Reach(g, u, u)
  {
    assert Path(g, [u]);
  }

  lemma ReachTrans(g: Graph, u: nat, v: nat, w: nat)
    requires Reach(g, u, v) && Reach(g, v, w)
    ensures Reach(g, u, w)
  {
    var p :| Path(g, p) && p[0] == u && p[|p| - 1] == v;
    var q :| Path(g, q) && q[0] == v && q[|q| - 1] == w;
    var r := p + q[1..];
    forall i | 0 <= i < |r| - 1
      ensures Edge(g, r[i], r[i + 1])
    {
      if i < |p| - 1 {
        assert Edge(g, p[i], p[i + 1]);
      } else {
        var j := i - (|p| - 1);
        assert r[i] == q[j] && r[i + 1] == q[j + 1];
        assert Edge(g, q[j], q[j + 1]);
      }
    }
    assert Path(g, r);
    assert r[|r| - 1] == w;
  }

  lemma ReachEdge(g: Graph, u: nat, w: nat)
    requires Edge(g, u, w)
    ensures Reach(g, u, w)
  {
    assert Path(g, [u, w]);
  }

  lemma ReachStep(g: Graph, u: nat, w: nat, v: nat)
    requires Edge(g, u, w) && Reach(g, w, v)
    ensures Reach(g, u, v)
  {
    ReachEdge(g, u, w);
    ReachTrans(g, u, w, v);
  }

  /** A path of at least one edge starts with an edge. */
  lemma ReachFirstEdge(g: Graph, u: nat, v: nat) returns (w: nat)
    requires Reach(g, u, v) && u != v
    ensures Edge(g, u, w) && Reach(g, w, v)
  {
    var p :| Path(g, p) && p[0] == u && p[|p| - 1] == v;
    w := p[1];
    var q := p[1..];
    assert Edge(g, p[0], p[1]);
    forall i | 0 <= i < |q| - 1 ensures Edge(g, q[i], q[i + 1]) {
      assert Edge(g, p[i + 1], p[i + 2]);
    }
    assert Path(g, q) && q[|q| - 1] == v;
  }

  lemma {:induction false} PathStaysClosed(g: Graph, s: set<nat>, p: seq<nat>)
    requires Closed(g, s) && Path(g, p) && p[0] in s
    ensures p[|p| - 1] in s
    decreases |p|
  {
    if |p| > 1 {
      var q := p[..|p| - 1];
      forall i | 0 <= i < |q| - 1 ensures Edge(g, q[i], q[i + 1]) {
        assert Edge(g, p[i], p[i + 1]);
      }
      assert Path(g, q);
      PathStaysClosed(g, s, q);
      assert Edge(g, p[|p| - 2], p[|p| - 1]);
    }
  }

  lemma ReachClosed(g: Graph, s: set<nat>, u: nat, v: nat)
    requires Closed(g, s) && u in s && Reach(g, u, v)
    ensures v in s
  {
    var p :| Path(g, p) && p[0] == u && p[|p| - 1] == v;
    PathStaysClosed(g, s, p);
  }

  /** A node that leads to a cycle has a successor that does. */
  lemma CycleBehind(g: Graph, u: nat) returns (w: nat)
    requires ReachesCycle(g, u)
    ensures w < |g| && Edge(g, u, w) && ReachesCycle(g, w)
  {
    hide Reach;
    var c: nat :| Reach(g, u, c) && InCycle(g, c);
    if c != u {
      w := ReachFirstEdge(g, u, c);
    } else {
      w :| Edge(g, u, w) && Reach(g, w, u);
    }
  }
}
