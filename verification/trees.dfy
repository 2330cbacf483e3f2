/**
 * What the labels of a finished search say about the graph: the chain of
 * predecessors of a reached node is a shortest path from the root, a node is
 * reached exactly when it is reachable, and hop counts alternate with the
 * kind of node.
 */
module Trees {
  import opened Nodes
  import opened Graphs
  import opened Search

  /** Following a predecessor strictly lowers the hop count, so every chain of predecessors ends. */
  predicate Descends(labels: Labels) {
    forall v | v in labels.pred ::
      v in labels.dist && labels.pred[v] in labels.dist && labels.dist[labels.pred[v]] < labels.dist[v]
  }

  lemma TreeDescends(g: Graph, root: NodeId, labels: Labels)
    requires IsTree(g, root, labels.dist, labels.pred)
    ensures Descends(labels)
  {
  }

  /**
   * The predecessors of `v`, oldest first, ending with `v` itself: the nodes a
   * rendered path goes through. The first node has no predecessor.
   */
  function Chain(labels: Labels, v: NodeId): (c: seq<NodeId>)
    requires Descends(labels) && v in labels.dist
    ensures |c| > 0 && c[|c| - 1] == v && c[0] !in labels.pred
    ensures forall i | 0 <= i < |c| :: c[i] in labels.dist
    ensures forall i | 0 < i < |c| :: c[i] in labels.pred && labels.pred[c[i]] == c[i - 1]
    decreases labels.dist[v]
  {
    if v in labels.pred then Chain(labels, labels.pred[v]) + [v] else [v]
  }

  /** No walk from the root is shorter than the hop count of its end, which is therefore reached. */
  lemma {:induction false} PathsAreNoShorter(g: Graph, root: NodeId, labels: Labels, p: seq<NodeId>, v: NodeId)
    requires IsBfsLabelling(g, root, labels) && IsPathBetween(g, p, root, v)
    ensures labels.dist[v] != Unreached && labels.dist[v] < |p|
    decreases |p|
  {
    if |p| > 1 {
      var p' := p[..|p| - 1];
      var u := p[|p| - 2];
      assert IsPathBetween(g, p', root, u);
      PathsAreNoShorter(g, root, labels, p', u);
      assert Settled(g, labels.dist, u);
    }
  }

  /** The chain of a reached node is a walk from the root whose i-th node is at hop i. */
  lemma {:induction false} ChainFromRoot(g: Graph, root: NodeId, labels: Labels, v: NodeId)
    requires IsTree(g, root, labels.dist, labels.pred)
    requires v in g && labels.dist[v] != Unreached
    ensures IsPathBetween(g, Chain(labels, v), root, v)
    ensures |Chain(labels, v)| == labels.dist[v] + 1
    ensures forall i | 0 <= i < |Chain(labels, v)| :: labels.dist[Chain(labels, v)[i]] == i
    decreases labels.dist[v]
  {
    var c := Chain(labels, v);
    if v in labels.pred {
      var u := labels.pred[v];
      ChainFromRoot(g, root, labels, u);
      var c' := Chain(labels, u);
      assert c == c' + [v];
      forall i | 0 <= i < |c|
        ensures labels.dist[c[i]] == i
      {
        if i < |c'| {
          assert c[i] == c'[i];
        }
      }
    } else {
      assert v == root;
    }
  }

  /** The chain of a reached node is a shortest walk from the root, one node longer than the node's hop count. */
  lemma ChainIsShortest(g: Graph, root: NodeId, labels: Labels, v: NodeId)
    requires IsBfsLabelling(g, root, labels)
    requires v in g && labels.dist[v] != Unreached
    ensures IsShortestPath(g, Chain(labels, v), root, v)
    ensures |Chain(labels, v)| == labels.dist[v] + 1
    ensures forall i | 0 <= i < |Chain(labels, v)| :: labels.dist[Chain(labels, v)[i]] == i
  {
    ChainFromRoot(g, root, labels, v);
    forall p | IsPathBetween(g, p, root, v)
      ensures |Chain(labels, v)| <= |p|
    {
      PathsAreNoShorter(g, root, labels, p, v);
    }
  }

  /** A node the search did not reach has no predecessor, so its chain is the node alone. */
  lemma ChainOfUnreached(g: Graph, root: NodeId, labels: Labels, v: NodeId)
    requires IsBfsLabelling(g, root, labels)
    requires v in g && labels.dist[v] == Unreached
    ensures v != root && Chain(labels, v) == [v]
  {
  }

  /** The search reaches exactly the nodes to which a walk from the root leads. */
  lemma ReachedIffReachable(g: Graph, root: NodeId, labels: Labels, v: NodeId)
    requires IsBfsLabelling(g, root, labels) && v in g
    ensures labels.dist[v] != Unreached <==> Reachable(g, root, v)
  {
    if labels.dist[v] != Unreached {
      ChainFromRoot(g, root, labels, v);
    }
    if Reachable(g, root, v) {
      var p :| IsPathBetween(g, p, root, v);
      PathsAreNoShorter(g, root, labels, p, v);
    }
  }

  /** Searching from an actor in a graph of actors and movies, actors sit at even hop counts and movies at odd ones. */
  lemma {:induction false} HopParity(g: Graph, root: NodeId, labels: Labels, v: NodeId)
    requires IsBfsLabelling(g, root, labels) && Bipartite(g) && root.ActorNode?
    requires v in g && labels.dist[v] != Unreached
    ensures labels.dist[v] % 2 == 0 <==> v.ActorNode?
    decreases labels.dist[v]
  {
    if v != root {
      var u := labels.pred[v];
      HopParity(g, root, labels, u);
      assert v in g[u];
      assert u.Type() != v.Type();
      assert labels.dist[v] == labels.dist[u] + 1;
    }
  }

  /** The chain of a reached node starts at the root actor and alternates between actors and movies. */
  lemma ChainAlternates(g: Graph, root: NodeId, labels: Labels, v: NodeId)
    requires IsBfsLabelling(g, root, labels) && Bipartite(g) && root.ActorNode?
    requires v in g && labels.dist[v] != Unreached
    ensures Chain(labels, v)[0] == root
    ensures forall i | 0 <= i < |Chain(labels, v)| :: Chain(labels, v)[i].ActorNode? <==> i % 2 == 0
  {
    var c := Chain(labels, v);
    ChainIsShortest(g, root, labels, v);
    forall i | 0 <= i < |c|
      ensures c[i].ActorNode? <==> i % 2 == 0
    {
      HopParity(g, root, labels, c[i]);
    }
  }
}
