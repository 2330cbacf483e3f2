/**
 * The queries a finished graph answers: the Bacon number of a name and the
 * rendered path from the reference actor to it.
 */
module Queries {
  import opened Outcomes
  import opened Nodes
  import opened Graphs
  import opened Search
  import opened Trees

  /**
   * The Bacon number of `name`: -1 when no actor has that name, the sentinel
   * when the search did not reach the actor, and otherwise half the actor's hop
   * count, since consecutive actors on a path are two hops apart.
   */
  function BaconNumber(actors: map<string, NodeId>, dist: Distances, name: string): (n: int)
    requires forall a | a in actors :: actors[a] in dist
    ensures n == -1 <==> name !in actors
    ensures name in actors && dist[actors[name]] != Unreached ==> 2 * n <= dist[actors[name]] <= 2 * n + 1
  {
    if name !in actors then -1
    else if dist[actors[name]] == Unreached then Unreached
    else dist[actors[name]] / 2
  }

  /**
   * The three answers of `BaconNumber` after a search from the actor `root`:
   * -1 for an unknown name, the sentinel for an actor no walk from the root
   * leads to, and otherwise the number `n` for which the chain of
   * predecessors is a shortest walk of 2n + 1 nodes.
   */
  lemma BaconNumberMeaning(g: Graph, root: NodeId, labels: Labels, actors: map<string, NodeId>, name: string)
    requires IsBfsLabelling(g, root, labels) && Bipartite(g) && root.ActorNode? && |g| <= Unreached
    requires ActorsIn(g, actors)
    ensures name !in actors ==> BaconNumber(actors, labels.dist, name) == -1
    ensures name in actors && !Reachable(g, root, actors[name]) ==> BaconNumber(actors, labels.dist, name) == Unreached
    ensures name in actors && Reachable(g, root, actors[name]) ==>
      var n := BaconNumber(actors, labels.dist, name);
      && 0 <= n < Unreached
      && IsShortestPath(g, Chain(labels, actors[name]), root, actors[name])
      && |Chain(labels, actors[name])| == 2 * n + 1
  {
    if name in actors {
      var a := actors[name];
      ReachedIffReachable(g, root, labels, a);
      if labels.dist[a] != Unreached {
        ChainIsShortest(g, root, labels, a);
        HopParity(g, root, labels, a);
        SubsetSize(Seen(g, labels.dist), g.Keys);
        assert |g.Keys| == |g|;
      }
    }
  }

  /** The reference actor has Bacon number 0. */
  lemma CenterNumber(g: Graph, labels: Labels, actors: map<string, NodeId>, center: string)
    requires center in actors && IsBfsLabelling(g, actors[center], labels) && ActorsIn(g, actors)
    ensures BaconNumber(actors, labels.dist, center) == 0
  {
  }

  /** An actor other than the reference actor who shares a movie with the reference actor has Bacon number 1. */
  lemma CostarNumber(g: Graph, labels: Labels, actors: map<string, NodeId>, center: string, name: string, m: NodeId)
    requires center in actors && IsBfsLabelling(g, actors[center], labels) && Bipartite(g) && ActorsIn(g, actors)
    requires name in actors && actors[name] != actors[center]
    requires m in g[actors[center]] && actors[name] in g[m]
    ensures BaconNumber(actors, labels.dist, name) == 1
  {
    var root, a := actors[center], actors[name];
    assert Settled(g, labels.dist, root);
    assert Settled(g, labels.dist, m);
    assert a in labels.pred;
    HopParity(g, root, labels, a);
  }

  /**
   * Looks up the actor of a query name; a blank name is rejected, and an
   * unknown name gives no actor.
   */
  function GetActor(actors: map<string, NodeId>, name: string): (r: Result<Option<NodeId>>)
    ensures r.Failure? <==> IsBlank(name)
    ensures r.Failure? ==> r.error == IllegalArgument("Actor can't be null or empty")
    ensures r.Success? ==> (r.value.Some? <==> name in actors)
    ensures r.Success? && r.value.Some? ==> r.value.value == actors[name]
  {
    if IsBlank(name) then Failure(IllegalArgument("Actor can't be null or empty"))
    else if name in actors then Success(Some(actors[name]))
    else Success(None)
  }

  /** The rendered nodes of `c`, one after the other. */
  function RenderAll(c: seq<NodeId>): string {
    if |c| == 0 then "" else RenderAll(c[..|c| - 1]) + Render(c[|c| - 1])
  }

  /**
   * The path text of `v`: the text of its predecessor, when it has one,
   * followed by `v` rendered between its kind's markers.
   */
  function Path(labels: Labels, v: NodeId): (s: string)
    requires Descends(labels) && v in labels.dist
    ensures |s| >= |Render(v)| && s[|s| - |Render(v)|..] == Render(v)
    decreases labels.dist[v]
  {
    if v in labels.pred then Path(labels, labels.pred[v]) + Render(v) else Render(v)
  }

  /** The path text of a node is the rendering of its chain of predecessors. */
  lemma {:induction false} PathRendersChain(labels: Labels, v: NodeId)
    requires Descends(labels) && v in labels.dist
    ensures Path(labels, v) == RenderAll(Chain(labels, v))
    decreases labels.dist[v]
  {
    if v in labels.pred {
      var u := labels.pred[v];
      PathRendersChain(labels, u);
      var c := Chain(labels, v);
      assert c[..|c| - 1] == Chain(labels, u);
    }
  }

  /** The Bacon path query: a blank name is rejected, an unknown name gives no path. */
  function BaconPath(actors: map<string, NodeId>, labels: Labels, name: string): (r: Result<Option<string>>)
    requires Descends(labels)
    requires forall a | a in actors :: actors[a] in labels.dist
    ensures r.Failure? <==> IsBlank(name)
    ensures r.Failure? ==> r.error == IllegalArgument("Actor can't be null or empty")
    ensures r.Success? ==> (r.value.Some? <==> name in actors)
  {
    match GetActor(actors, name)
    case Failure(e) => Failure(e)
    case Success(None) => Success(None)
    case Success(Some(a)) => Success(Some(Path(labels, a)))
  }

  /**
   * After a search from the actor `root`, the path of a known actor renders
   * its chain of predecessors. When the actor is reachable the chain is a
   * shortest walk from the root of 2n + 1 nodes, n being the Bacon number,
   * alternating actor, movie, actor; otherwise the chain is the actor alone.
   */
  lemma BaconPathMeaning(g: Graph, root: NodeId, labels: Labels, actors: map<string, NodeId>, name: string)
    requires IsBfsLabelling(g, root, labels) && Bipartite(g) && root.ActorNode? && |g| <= Unreached
    requires ActorsIn(g, actors)
    requires !IsBlank(name) && name in actors
    ensures
      var a := actors[name];
      var c := Chain(labels, a);
      && BaconPath(actors, labels, name) == Success(Some(RenderAll(c)))
      && (Reachable(g, root, a) ==>
            && IsShortestPath(g, c, root, a)
            && |c| == 2 * BaconNumber(actors, labels.dist, name) + 1
            && forall i | 0 <= i < |c| :: c[i].ActorNode? <==> i % 2 == 0)
      && (!Reachable(g, root, a) ==> c == [a])
  {
    var a := actors[name];
    PathRendersChain(labels, a);
    BaconNumberMeaning(g, root, labels, actors, name);
    ReachedIffReachable(g, root, labels, a);
    if labels.dist[a] != Unreached {
      ChainAlternates(g, root, labels, a);
    } else {
      ChainOfUnreached(g, root, labels, a);
    }
  }
}
