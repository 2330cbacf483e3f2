/**
 * The graph as its constructor leaves it: built from the input lines, then
 * searched from the reference actor, ready to answer queries.
 */
module Bacon {
  import opened Outcomes
  import opened Nodes
  import opened Graphs
  import opened Builder
  import opened Search
  import opened Trees
  import opened Queries

  /** The graph, the actor map and the labels of the search. */
  datatype BaconGraph = BaconGraph(graph: Graph, actors: map<string, NodeId>, labels: Labels)

  /** What a constructed graph guarantees to its queries. */
  ghost predicate Valid(b: BaconGraph, center: string) {
    && center in b.actors
    && Closed(b.graph) && Symmetric(b.graph) && Bipartite(b.graph) && |b.graph| <= Unreached
    && ActorsIn(b.graph, b.actors)
    && IsBfsLabelling(b.graph, b.actors[center], b.labels)
  }

  /**
   * The constructor: negative size hints are rejected before anything else,
   * then the graph is built from `lines` and searched from the actor named
   * `center`, whose absence is the `NoBacon` error.
   */
  method NewBaconGraph(lines: seq<string>, center: string, expectedActors: int, expectedMovies: int) returns (r: Result<BaconGraph>)
    requires expectedActors >= 0 && expectedMovies >= 0 ==> CreditsFollowActor(lines) && |lines| <= Unreached
    ensures expectedActors < 0 || expectedMovies < 0 ==>
      r == Failure(IllegalArgument("Expected number of actors and movies can't be negative"))
    ensures expectedActors >= 0 && expectedMovies >= 0 ==>
      && (r.Failure? <==> center !in Build(lines).actors)
      && (r.Failure? ==> r.error == NoBacon("Kevin Bacon was not found"))
    ensures r.Success? ==>
      && r.value.graph == Build(lines).graph && r.value.actors == Build(lines).actors
      && Valid(r.value, center)
  {
    if expectedActors < 0 || expectedMovies < 0 {
      return Failure(IllegalArgument("Expected number of actors and movies can't be negative"));
    }
    var s := Build(lines);
    BuildWellFormed(lines);
    BuildSize(lines);
    var search := BreadthFirstSearch(s.graph, s.actors, center);
    match search
    case Failure(e) =>
      r := Failure(e);
    case Success(labels) =>
      r := Success(BaconGraph(s.graph, s.actors, labels));
  }

  /** A constructed graph answers -1 for a name exactly when no actor line of the input declares it. */
  lemma UnknownName(lines: seq<string>, center: string, b: BaconGraph, name: string)
    requires CreditsFollowActor(lines) && b.actors == Build(lines).actors && Valid(b, center)
    ensures BaconNumber(b.actors, b.labels.dist, name) == -1
            <==> forall j | 0 <= j < |lines| :: Classify(lines[j]) != ActorLine(name)
  {
    BuildActors(lines);
  }

  const Sample: seq<string> := ["<a>X", "<t>M1", "<a>Y", "<t>M1"]

  /** The graph of `Sample`: X and Y both neighbour M1. */
  const SampleGraph: Graph :=
    map[ActorNode("X", 0) := [MovieNode("M1")],
        MovieNode("M1") := [ActorNode("X", 0), ActorNode("Y", 2)],
        ActorNode("Y", 2) := [MovieNode("M1")]]

  const SampleActors: map<string, NodeId> := map["X" := ActorNode("X", 0), "Y" := ActorNode("Y", 2)]

  /** Building `Sample` gives `SampleGraph` and `SampleActors`. */
  lemma SampleBuild()
    ensures CreditsFollowActor(Sample)
    ensures Build(Sample).graph == SampleGraph && Build(Sample).actors == SampleActors
  {
    var x, m, y := ActorNode("X", 0), MovieNode("M1"), ActorNode("Y", 2);
    SampleLines();
    var s1 := State(map[x := []], map["X" := x], Some(x));
    var s2 := State(map[x := [m], m := [x]], map["X" := x], Some(x));
    var s3 := State(map[x := [m], m := [x], y := []], map["X" := x, "Y" := y], Some(y));
    var s4 := State(SampleGraph, SampleActors, Some(y));
    assert Sample[..0] == [];
    assert Sample[..1][..0] == [];
    assert Build(Sample[..1]) == s1;
    assert Sample[..2][..1] == Sample[..1];
    assert Link(s1.graph, x, m) == s2.graph by {
      assert m !in s1.graph;
      assert s1.graph[x] + [m] == [m];
      var none: seq<NodeId> := [];
      assert none + [x] == [x];
      assert s1.graph[x := [m]][m := [x]] == s2.graph;
    }
    assert Build(Sample[..2]) == Step(s1, Sample[1], 1) == s2;
    assert Sample[..3][..2] == Sample[..2];
    assert Build(Sample[..3]) == s3;
    assert Sample[..4] == Sample;
    assert Link(s3.graph, y, m) == s4.graph by {
      assert s3.graph[m] == [x];
      assert s3.graph[y] + [m] == [m];
      assert s3.graph[m] + [y] == [x, y];
      assert s3.graph[y := [m]][m := [x, y]] == s4.graph;
    }
    assert Build(Sample) == Step(s3, Sample[3], 3) == s4;
  }

  /** What each line of `Sample` declares. */
  lemma SampleLines()
    ensures Classify(Sample[0]) == ActorLine("X") && Classify(Sample[1]) == TitleLine("M1")
    ensures Classify(Sample[2]) == ActorLine("Y") && Classify(Sample[3]) == TitleLine("M1")
  {
    ClassifyMarked(Actor, "X");
    ClassifyMarked(Movie, "M1");
    ClassifyMarked(Actor, "Y");
    assert Sample[0] == Prefix(Actor) + "X" && Sample[1] == Prefix(Movie) + "M1";
    assert Sample[2] == Prefix(Actor) + "Y" && Sample[3] == Prefix(Movie) + "M1";
  }

  /** Any search of the sample's graph from X reaches M1 from X and Y from M1. */
  lemma SampleTree(labels: Labels)
    requires IsBfsLabelling(SampleGraph, ActorNode("X", 0), labels)
    ensures ActorNode("X", 0) !in labels.pred
    ensures MovieNode("M1") in labels.pred && labels.pred[MovieNode("M1")] == ActorNode("X", 0)
    ensures ActorNode("Y", 2) in labels.pred && labels.pred[ActorNode("Y", 2)] == MovieNode("M1")
    ensures labels.dist[ActorNode("Y", 2)] == 2
  {
    var g := SampleGraph;
    var x, m, y := ActorNode("X", 0), MovieNode("M1"), ActorNode("Y", 2);
    var dist, pred := labels.dist, labels.pred;
    assert Settled(g, dist, x);
    assert g[x][0] == m;
    assert m in pred;
    assert dist[m] == 1;
    assert Settled(g, dist, m);
    assert g[m][1] == y;
    assert y in pred;
    assert pred[y] == m by {
      assert y in g[pred[y]];
    }
    assert pred[m] == x by {
      assert m in g[pred[m]];
      assert dist[pred[m]] == 0;
    }
  }

  /** In any search of the sample's graph from X, the chain of Y is X, M1, Y. */
  lemma SampleChain(labels: Labels)
    requires IsBfsLabelling(SampleGraph, ActorNode("X", 0), labels)
    ensures Descends(labels) && ActorNode("Y", 2) in labels.dist
    ensures Chain(labels, ActorNode("Y", 2)) == [ActorNode("X", 0), MovieNode("M1"), ActorNode("Y", 2)]
  {
    var x, m, y := ActorNode("X", 0), MovieNode("M1"), ActorNode("Y", 2);
    SampleTree(labels);
    TreeDescends(SampleGraph, x, labels);
    assert Chain(labels, x) == [x];
    assert Chain(labels, m) == [x, m];
  }

  /**
   * Two actors credited with the same movie: searched from X, the actor Y has
   * Bacon number 1 and the path actor X, movie M1, actor Y.
   */
  lemma SampleCostars(labels: Labels)
    requires IsBfsLabelling(SampleGraph, ActorNode("X", 0), labels)
    ensures BaconNumber(SampleActors, labels.dist, "Y") == 1
    ensures BaconPath(SampleActors, labels, "Y") == Success(Some("<a>X<a>" + "<t>M1<t>" + "<a>Y<a>"))
  {
    var x, m, y := ActorNode("X", 0), MovieNode("M1"), ActorNode("Y", 2);
    SampleTree(labels);
    SampleChain(labels);
    PathRendersChain(labels, y);
    SampleText();
    SampleLookup();
    assert Path(labels, y) == "<a>X<a>" + "<t>M1<t>" + "<a>Y<a>";
  }

  /** The sample's actor map finds Y under its name, which is not blank. */
  lemma SampleLookup()
    ensures GetActor(SampleActors, "Y") == Success(Some(ActorNode("Y", 2)))
  {
    assert !IsWhitespace("Y"[0]);
  }

  /** The rendered chain X, M1, Y. */
  lemma SampleText()
    ensures RenderAll([ActorNode("X", 0), MovieNode("M1"), ActorNode("Y", 2)]) == "<a>X<a>" + "<t>M1<t>" + "<a>Y<a>"
  {
    var x, m, y := ActorNode("X", 0), MovieNode("M1"), ActorNode("Y", 2);
    RenderThree(x, m, y);
    assert Render(x) == "<a>X<a>";
    assert Render(m) == "<t>M1<t>";
    assert Render(y) == "<a>Y<a>";
  }

  lemma RenderThree(x: NodeId, m: NodeId, y: NodeId)
    ensures RenderAll([x, m, y]) == Render(x) + Render(m) + Render(y)
  {
    assert [x, m, y][..2] == [x, m];
    assert [x, m][..1] == [x];
    assert [x][..0] == [];
    assert RenderAll([x]) == Render(x);
    assert RenderAll([x, m]) == Render(x) + Render(m);
  }
}
