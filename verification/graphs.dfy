/** The actor–movie graph as adjacency lists, and paths through it. */
module Graphs {
  import opened Nodes

  /**
   * Each node maps to its adjacency list, in insertion order and with a
   * repeated entry for every repeated credit, as the `ArrayList` adjacency lists of `BaconGraph.Node` keep them.
   */
  type Graph = map<NodeId, seq<NodeId>>

  /** Every neighbour is itself a node of the graph. */
  ghost predicate Closed(g: Graph) {
    forall u, w | u in g && w in g[u] :: w in g
  }

  /** Every edge is recorded at both ends, as often at one end as at the other. */
  ghost predicate Symmetric(g: Graph) {
    forall u, w | u in g && w in g :: multiset(g[u])[w] == multiset(g[w])[u]
  }

  /** Actors neighbour only movies and movies only actors. */
  ghost predicate Bipartite(g: Graph) {
    forall u, w | u in g && w in g[u] :: u.Type() != w.Type()
  }

  /** Every name in the actor map leads to an actor node of the graph. */
  ghost predicate ActorsIn(g: Graph, actors: map<string, NodeId>) {
    forall name | name in actors :: actors[name] in g && actors[name].ActorNode?
  }

  /** A walk through the graph: a non-empty sequence of nodes, each a neighbour of the one before. */
  ghost predicate IsPath(g: Graph, p: seq<NodeId>) {
    && |p| > 0
    && (forall i | 0 <= i < |p| :: p[i] in g)
    && (forall i | 0 <= i < |p| - 1 :: p[i] in g && p[i + 1] in g[p[i]])
  }

  /** A walk from `s` to `t`; it takes |p| - 1 hops. */
  ghost predicate IsPathBetween(g: Graph, p: seq<NodeId>, s: NodeId, t: NodeId) {
    IsPath(g, p) && p[0] == s && p[|p| - 1] == t
  }

  ghost predicate Reachable(g: Graph, s: NodeId, t: NodeId) {
    exists p :: IsPathBetween(g, p, s, t)
  }

  /** A walk from `s` to `t` no longer than any other such walk. */
  ghost predicate IsShortestPath(g: Graph, p: seq<NodeId>, s: NodeId, t: NodeId) {
    && IsPathBetween(g, p, s, t)
    && forall p' | IsPathBetween(g, p', s, t) :: |p| <= |p'|
  }
}
