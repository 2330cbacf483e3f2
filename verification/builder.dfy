/**
 * Building the actor–movie graph from the lines of the input, one line at a
 * time, as `readFile` does (without opening or reading the file).
 */
module Builder {
  import opened Outcomes
  import opened Nodes
  import opened Graphs

  /**
   * What the reader holds between two lines: the graph so far, the actor map
   * (name to the node of its latest declaration) and the current actor, to
   * which title lines attach their movie. The movie map of `readFile` is the
   * set of movie nodes of the graph, since a movie is identified by its title.
   */
  datatype State = State(graph: Graph, actors: map<string, NodeId>, current: Option<NodeId>)

  const Start := State(map[], map[], None)

  /** No title line comes before the first actor line (`readFile` dereferences a null current actor there). */
  predicate CreditsFollowActor(lines: seq<string>) {
    forall j | 0 <= j < |lines| && Classify(lines[j]).TitleLine? ::
      exists k | 0 <= k < j :: Classify(lines[k]).ActorLine?
  }

  /** `a` is the node made by the last actor line of `lines`. */
  ghost predicate LatestActor(lines: seq<string>, a: NodeId) {
    && a.ActorNode?
    && a.line < |lines|
    && Classify(lines[a.line]) == ActorLine(a.name)
    && forall k | a.line < k < |lines| :: !Classify(lines[k]).ActorLine?
  }

  /** Processes the line with index `i`. */
  function Step(s: State, line: string, i: nat): State
    requires Classify(line).TitleLine? ==> s.current.Some? && s.current.value in s.graph
  {
    match Classify(line)
    case ActorLine(name) =>
      var a := ActorNode(name, i);
      State(s.graph[a := []], s.actors[name := a], Some(a))
    case TitleLine(title) =>
      var a := s.current.value;
      var m := MovieNode(title);
      State(Link(s.graph, a, m), s.actors, s.current)
    case Ignored =>
      s
  }

  /** The reader's state after all of `lines`; its current actor is the node of the last actor line. */
  function Build(lines: seq<string>): (s: State)
    requires CreditsFollowActor(lines)
    ensures s.current.Some? <==> exists k | 0 <= k < |lines| :: Classify(lines[k]).ActorLine?
    ensures s.current.Some? ==> LatestActor(lines, s.current.value) && s.current.value in s.graph
    decreases |lines|
  {
    if |lines| == 0 then Start
    else
      var n := |lines| - 1;
      var prefix := lines[..n];
      assert forall k | 0 <= k < n :: prefix[k] == lines[k];
      var s := Build(prefix);
      Step(s, lines[n], n)
  }

  /** A prefix of an input that meets `CreditsFollowActor` meets it too. */
  lemma PrefixCreditsFollowActor(lines: seq<string>, n: nat)
    requires CreditsFollowActor(lines) && n <= |lines|
    ensures CreditsFollowActor(lines[..n])
  {
    var prefix := lines[..n];
    forall j | 0 <= j < n && Classify(prefix[j]).TitleLine?
      ensures exists k | 0 <= k < j :: Classify(prefix[k]).ActorLine?
    {
      var k :| 0 <= k < j && Classify(lines[k]).ActorLine?;
      assert prefix[k] == lines[k];
    }
  }

  // ---------------------------------------------------------------------------
  // The shape of the graph: closed, symmetric, bipartite.

  /** What holds of the reader's state before the line with index `n`. */
  ghost predicate WellFormed(s: State, n: nat) {
    && Closed(s.graph)
    && Symmetric(s.graph)
    && Bipartite(s.graph)
    && (forall v | v in s.graph && v.ActorNode? :: v.line < n)
    && ActorsIn(s.graph, s.actors)
    && (forall name | name in s.actors :: s.actors[name].name == name)
    && (s.current.Some? ==> s.current.value in s.graph && s.current.value.ActorNode?)
  }

  /** How often `y` occurs in the adjacency list of `x`, zero when `x` is no node. */
  ghost function Multiplicity(g: Graph, x: NodeId, y: NodeId): nat {
    if x in g then multiset(g[x])[y] else 0
  }

  lemma ClosedSymmetricMultiplicity(g: Graph, x: NodeId, y: NodeId)
    requires Closed(g) && Symmetric(g)
    ensures Multiplicity(g, x, y) == Multiplicity(g, y, x)
  {
    if x in g && y !in g {
      assert y !in g[x];
    } else if x !in g && y in g {
      assert x !in g[y];
    }
  }

  /** Adding a node without neighbours keeps the graph closed and symmetric. */
  lemma AddNodeKeepsShape(g: Graph, a: NodeId)
    requires Closed(g) && Symmetric(g) && Bipartite(g) && a !in g
    ensures Closed(g[a := []]) && Symmetric(g[a := []]) && Bipartite(g[a := []])
  {
    var g' := g[a := []];
    forall u, w | u in g' && w in g'
      ensures multiset(g'[u])[w] == multiset(g'[w])[u]
    {
      ClosedSymmetricMultiplicity(g, u, w);
      assert Multiplicity(g', u, w) == Multiplicity(g, u, w);
      assert Multiplicity(g', w, u) == Multiplicity(g, w, u);
    }
  }

  /** The graph after linking `a` to `m`: `m` is added at the end of the list of `a`, and `a` at the end of the list of `m`. */
  function Link(g: Graph, a: NodeId, m: NodeId): Graph
    requires a in g
  {
    var cast := if m in g then g[m] else [];
    g[a := g[a] + [m]][m := cast + [a]]
  }

  /**
   * Linking adds no node but the movie: a movie node already in the graph is
   * reused, and keeps the actors it was linked to, the new actor after them.
   */
  lemma LinkNodes(g: Graph, a: NodeId, m: NodeId)
    requires a in g && a != m
    ensures Link(g, a, m).Keys == g.Keys + {m}
    ensures Link(g, a, m)[a] == g[a] + [m]
    ensures Link(g, a, m)[m] == (if m in g then g[m] else []) + [a]
    ensures forall v | v in g && v != a && v != m :: Link(g, a, m)[v] == g[v]
  {
  }

  lemma LinkMultiplicity(g: Graph, a: NodeId, m: NodeId, u: NodeId, w: NodeId)
    requires a in g && a != m
    ensures Multiplicity(Link(g, a, m), u, w)
            == Multiplicity(g, u, w) + (if u == a && w == m then 1 else 0) + (if u == m && w == a then 1 else 0)
  {
  }

  /** Linking an actor to a movie keeps the graph closed, symmetric and bipartite. */
  lemma LinkKeepsShape(g: Graph, a: NodeId, m: NodeId)
    requires Closed(g) && Symmetric(g) && Bipartite(g)
    requires a in g && a.Type() == Actor && m.Type() == Movie
    ensures Closed(Link(g, a, m)) && Symmetric(Link(g, a, m)) && Bipartite(Link(g, a, m))
  {
    LinkKeepsClosed(g, a, m);
    LinkKeepsSymmetric(g, a, m);
    LinkKeepsBipartite(g, a, m);
  }

  lemma LinkKeepsClosed(g: Graph, a: NodeId, m: NodeId)
    requires Closed(g) && a in g
    ensures Closed(Link(g, a, m))
  {
  }

  lemma LinkKeepsBipartite(g: Graph, a: NodeId, m: NodeId)
    requires Bipartite(g) && a in g && a.Type() != m.Type()
    ensures Bipartite(Link(g, a, m))
  {
  }

  lemma LinkKeepsSymmetric(g: Graph, a: NodeId, m: NodeId)
    requires Closed(g) && Symmetric(g)
    requires a in g && a != m
    ensures Symmetric(Link(g, a, m))
  {
    var g' := Link(g, a, m);
    forall u, w | u in g' && w in g'
      ensures multiset(g'[u])[w] == multiset(g'[w])[u]
    {
      ClosedSymmetricMultiplicity(g, u, w);
      LinkMultiplicity(g, a, m, u, w);
      LinkMultiplicity(g, a, m, w, u);
    }
  }

  lemma StepWellFormed(s: State, line: string, i: nat)
    requires WellFormed(s, i)
    requires Classify(line).TitleLine? ==> s.current.Some? && s.current.value in s.graph
    ensures WellFormed(Step(s, line, i), i + 1)
  {
    match Classify(line)
    case ActorLine(name) =>
      ActorLineWellFormed(s, name, i);
    case TitleLine(title) =>
      TitleLineWellFormed(s, title, i);
    case Ignored =>
  }

  /** An actor line adds a fresh actor node, maps its name to it and makes it the current actor. */
  lemma ActorLineWellFormed(s: State, name: string, i: nat)
    requires WellFormed(s, i)
    ensures WellFormed(State(s.graph[ActorNode(name, i) := []], s.actors[name := ActorNode(name, i)], Some(ActorNode(name, i))), i + 1)
  {
    AddNodeKeepsShape(s.graph, ActorNode(name, i));
  }

  /** A title line links the current actor to the movie. */
  lemma TitleLineWellFormed(s: State, title: string, i: nat)
    requires WellFormed(s, i) && s.current.Some? && s.current.value in s.graph
    ensures WellFormed(State(Link(s.graph, s.current.value, MovieNode(title)), s.actors, s.current), i + 1)
  {
    LinkKeepsShape(s.graph, s.current.value, MovieNode(title));
  }

  /** The graph read from any input is closed, symmetric and bipartite, and the actor map points at actor nodes of it. */
  lemma {:induction false} BuildWellFormed(lines: seq<string>)
    requires CreditsFollowActor(lines)
    ensures WellFormed(Build(lines), |lines|)
    decreases |lines|
  {
    if |lines| > 0 {
      var n := |lines| - 1;
      PrefixCreditsFollowActor(lines, n);
      BuildWellFormed(lines[..n]);
      StepWellFormed(Build(lines[..n]), lines[n], n);
    }
  }

  // ---------------------------------------------------------------------------
  // Which nodes the graph has.

  /** `v` is declared by `lines`: an actor node by the actor line it records, a movie node by any title line with its title. */
  ghost predicate Declared(lines: seq<string>, v: NodeId) {
    match v
    case ActorNode(name, j) => j < |lines| && Classify(lines[j]) == ActorLine(name)
    case MovieNode(title) => exists j | 0 <= j < |lines| :: Classify(lines[j]) == TitleLine(title)
  }

  /** The graph has one actor node per actor line and one movie node per distinct title, and nothing else. */
  lemma {:induction false} BuildNodes(lines: seq<string>)
    requires CreditsFollowActor(lines)
    ensures forall v :: v in Build(lines).graph <==> Declared(lines, v)
    decreases |lines|
  {
    if |lines| > 0 {
      var n := |lines| - 1;
      var prefix := lines[..n];
      PrefixCreditsFollowActor(lines, n);
      BuildNodes(prefix);
      var g := Build(prefix).graph;
      var g' := Build(lines).graph;
      forall v
        ensures v in g' <==> Declared(lines, v)
      {
        assert Declared(lines, v) <==>
                 || Declared(prefix, v)
                 || (v.ActorNode? && v.line == n && Classify(lines[n]) == ActorLine(v.name))
                 || (v.MovieNode? && Classify(lines[n]) == TitleLine(v.name)) by {
          if v.MovieNode? {
            if j :| 0 <= j < |lines| && Classify(lines[j]) == TitleLine(v.name) {
              if j < n {
                assert prefix[j] == lines[j];
              }
            }
            if j :| 0 <= j < n && Classify(prefix[j]) == TitleLine(v.name) {
              assert prefix[j] == lines[j];
            }
          } else if v.line < n {
            assert prefix[v.line] == lines[v.line];
          }
        }
      }
    }
  }

  /** The distinct titles of the title lines of `lines`. */
  ghost function Titles(lines: seq<string>): set<string> {
    set j | 0 <= j < |lines| && Classify(lines[j]).TitleLine? :: Classify(lines[j]).title
  }

  ghost function MovieNodes(g: Graph): set<NodeId> {
    set v | v in g && v.MovieNode?
  }

  lemma MovieImageSize(titles: set<string>)
    ensures |set t | t in titles :: MovieNode(t)| == |titles|
    decreases |titles|
  {
    if titles != {} {
      var t :| t in titles;
      var rest := titles - {t};
      MovieImageSize(rest);
      assert (set x | x in titles :: MovieNode(x)) == (set x | x in rest :: MovieNode(x)) + {MovieNode(t)};
    }
  }

  /** Repeated titles share a node: there are exactly as many movie nodes as distinct titles. */
  lemma MovieNodesAreTitles(lines: seq<string>)
    requires CreditsFollowActor(lines)
    ensures MovieNodes(Build(lines).graph) == set t | t in Titles(lines) :: MovieNode(t)
    ensures |MovieNodes(Build(lines).graph)| == |Titles(lines)|
  {
    BuildNodes(lines);
    var g := Build(lines).graph;
    forall v | v in MovieNodes(g)
      ensures v.name in Titles(lines)
    {
      assert Declared(lines, v);
      var j :| 0 <= j < |lines| && Classify(lines[j]) == TitleLine(v.name);
    }
    forall t | t in Titles(lines)
      ensures MovieNode(t) in g
    {
      var j :| 0 <= j < |lines| && Classify(lines[j]).TitleLine? && Classify(lines[j]).title == t;
      assert Declared(lines, MovieNode(t));
    }
    assert MovieNodes(g) == set t | t in Titles(lines) :: MovieNode(t);
    MovieImageSize(Titles(lines));
  }

  // ---------------------------------------------------------------------------
  // The actor map: latest declaration wins.

  /** Line `j` is the last line of `lines` that declares the actor `name`. */
  ghost predicate LastDeclaration(lines: seq<string>, name: string, j: nat) {
    && j < |lines|
    && Classify(lines[j]) == ActorLine(name)
    && forall k | j < k < |lines| :: Classify(lines[k]) != ActorLine(name)
  }

  /** The actor map after one more line: an actor line maps its name to its fresh node, other lines leave the map alone. */
  lemma StepActors(s: State, line: string, i: nat)
    requires Classify(line).TitleLine? ==> s.current.Some? && s.current.value in s.graph
    ensures Step(s, line, i).actors
            == if Classify(line).ActorLine? then s.actors[Classify(line).name := ActorNode(Classify(line).name, i)] else s.actors
  {
  }

  /**
   * A name is in the actor map exactly when some line declares it, and it
   * maps to the node made by the last such line.
   */
  lemma {:induction false} BuildActors(lines: seq<string>)
    requires CreditsFollowActor(lines)
    ensures forall name :: name in Build(lines).actors <==> exists j | 0 <= j < |lines| :: Classify(lines[j]) == ActorLine(name)
    ensures forall name | name in Build(lines).actors ::
              var a := Build(lines).actors[name];
              a.ActorNode? && a.name == name && LastDeclaration(lines, name, a.line)
    decreases |lines|
  {
    if |lines| > 0 {
      var n := |lines| - 1;
      var prefix := lines[..n];
      PrefixCreditsFollowActor(lines, n);
      BuildActors(prefix);
      var actors := Build(prefix).actors;
      var actors' := Build(lines).actors;
      StepActors(Build(prefix), lines[n], n);
      forall name
        ensures name in actors' <==> exists j | 0 <= j < |lines| :: Classify(lines[j]) == ActorLine(name)
      {
        ActorsMembershipSnoc(lines, name);
      }
      forall name | name in actors'
        ensures actors'[name].ActorNode? && actors'[name].name == name && LastDeclaration(lines, name, actors'[name].line)
      {
        if Classify(lines[n]) != ActorLine(name) {
          assert name in actors;
          LastDeclarationSnoc(lines, name, actors[name].line);
        }
      }
    }
  }

  lemma ActorsMembershipSnoc(lines: seq<string>, name: string)
    requires |lines| > 0
    ensures var n := |lines| - 1;
            (exists j | 0 <= j < |lines| :: Classify(lines[j]) == ActorLine(name))
            <==> (exists j | 0 <= j < n :: Classify(lines[..n][j]) == ActorLine(name)) || Classify(lines[n]) == ActorLine(name)
  {
    var n := |lines| - 1;
    var prefix := lines[..n];
    if j :| 0 <= j < |lines| && Classify(lines[j]) == ActorLine(name) {
      if j < n {
        assert prefix[j] == lines[j];
      }
    }
    if j :| 0 <= j < n && Classify(prefix[j]) == ActorLine(name) {
      assert prefix[j] == lines[j];
    }
  }

  lemma LastDeclarationSnoc(lines: seq<string>, name: string, j: nat)
    requires |lines| > 0 && LastDeclaration(lines[..|lines| - 1], name, j)
    requires Classify(lines[|lines| - 1]) != ActorLine(name)
    ensures LastDeclaration(lines, name, j)
  {
    var n := |lines| - 1;
    var prefix := lines[..n];
    assert prefix[j] == lines[j];
    forall k | j < k < |lines|
      ensures Classify(lines[k]) != ActorLine(name)
    {
      if k < n {
        assert prefix[k] == lines[k];
      }
    }
  }

  // ---------------------------------------------------------------------------
  // The edges: an actor is linked to the movies of the title lines that follow it.

  /** No actor line lies strictly between the lines `i` and `j`. */
  ghost predicate SameBlock(lines: seq<string>, i: nat, j: nat)
    requires j <= |lines|
  {
    forall k | i < k < j :: !Classify(lines[k]).ActorLine?
  }

  /** The actor declared at line `i` is credited with `title`: a title line for it follows before the next actor line. */
  ghost predicate Credited(lines: seq<string>, i: nat, title: string) {
    exists j | i < j < |lines| :: Classify(lines[j]) == TitleLine(title) && SameBlock(lines, i, j)
  }

  /** Before line `n`, only the block of the latest actor is still open. */
  lemma OpenBlock(lines: seq<string>, i: nat, c: NodeId)
    requires LatestActor(lines, c)
    requires i < |lines| && Classify(lines[i]).ActorLine?
    ensures SameBlock(lines, i, |lines|) <==> i == c.line
  {
    if i < c.line {
      assert !SameBlock(lines, i, |lines|) by {
        assert Classify(lines[c.line]).ActorLine?;
      }
    }
  }

  /** How `Credited` changes when one line is appended. */
  lemma CreditedSnoc(lines: seq<string>, i: nat, title: string)
    requires |lines| > 0 && i < |lines| - 1
    ensures var n := |lines| - 1;
            Credited(lines, i, title)
            <==> Credited(lines[..n], i, title) || (Classify(lines[n]) == TitleLine(title) && SameBlock(lines[..n], i, n))
  {
    var n := |lines| - 1;
    var prefix := lines[..n];
    forall j | i < j <= n
      ensures SameBlock(lines, i, j) <==> SameBlock(prefix, i, j)
    {
      assert forall k | i < k < j :: prefix[k] == lines[k];
    }
    if j :| i < j < |lines| && Classify(lines[j]) == TitleLine(title) && SameBlock(lines, i, j) {
      if j < n {
        assert prefix[j] == lines[j];
      }
    }
    if j :| i < j < n && Classify(prefix[j]) == TitleLine(title) && SameBlock(prefix, i, j) {
      assert prefix[j] == lines[j];
    }
  }

  /** The edge facts of `lines` that `BuildEdges` states. */
  ghost predicate EdgesCredited(lines: seq<string>, g: Graph) {
    forall a, title | a in g && a.ActorNode? :: MovieNode(title) in g[a] <==> Credited(lines, a.line, title)
  }

  /** How one line changes the movies an actor node neighbours. */
  lemma StepEdge(s: State, line: string, i: nat, a: NodeId, title: string)
    requires Classify(line).TitleLine? ==> s.current.Some? && s.current.value in s.graph
    requires forall v | v in s.graph && v.ActorNode? :: v.line < i
    requires s.current.Some? ==> s.current.value.ActorNode?
    requires a in Step(s, line, i).graph && a.ActorNode?
    ensures a !in s.graph ==> a.line == i && Step(s, line, i).graph[a] == []
    ensures a in s.graph ==>
              (MovieNode(title) in Step(s, line, i).graph[a]
               <==> MovieNode(title) in s.graph[a] || (Classify(line) == TitleLine(title) && a == s.current.value))
  {
  }

  /** One step of `BuildEdges`, for one actor node and one title. */
  lemma EdgeSnoc(lines: seq<string>, a: NodeId, title: string)
    requires |lines| > 0 && CreditsFollowActor(lines)
    requires CreditsFollowActor(lines[..|lines| - 1])
    requires EdgesCredited(lines[..|lines| - 1], Build(lines[..|lines| - 1]).graph)
    requires a in Build(lines).graph && a.ActorNode?
    ensures MovieNode(title) in Build(lines).graph[a] <==> Credited(lines, a.line, title)
  {
    var n := |lines| - 1;
    var prefix := lines[..n];
    var s := Build(prefix);
    BuildWellFormed(prefix);
    BuildNodes(prefix);
    assert Build(lines) == Step(s, lines[n], n);
    StepEdge(s, lines[n], n, a, title);
    if a in s.graph {
      assert Declared(prefix, a);
      assert prefix[a.line] == lines[a.line];
      CreditedSnoc(lines, a.line, title);
      if Classify(lines[n]).TitleLine? {
        OpenBlock(prefix, a.line, s.current.value);
      }
    }
  }

  /**
   * The actor node declared at line `i` neighbours the movie `title` exactly
   * when `Credited(lines, i, title)`.
   */
  lemma {:induction false} BuildEdges(lines: seq<string>)
    requires CreditsFollowActor(lines)
    ensures EdgesCredited(lines, Build(lines).graph)
    decreases |lines|
  {
    if |lines| > 0 {
      var n := |lines| - 1;
      PrefixCreditsFollowActor(lines, n);
      BuildEdges(lines[..n]);
      forall a, title | a in Build(lines).graph && a.ActorNode?
        ensures MovieNode(title) in Build(lines).graph[a] <==> Credited(lines, a.line, title)
      {
        EdgeSnoc(lines, a, title);
      }
    }
  }

  /** Read from the movie's side: a movie node neighbours exactly the actor nodes credited with its title. */
  lemma CastOfMovie(lines: seq<string>, title: string, a: NodeId)
    requires CreditsFollowActor(lines)
    requires MovieNode(title) in Build(lines).graph && a.ActorNode?
    ensures a in Build(lines).graph[MovieNode(title)] <==> a in Build(lines).graph && Credited(lines, a.line, title)
  {
    var g := Build(lines).graph;
    var m := MovieNode(title);
    BuildWellFormed(lines);
    BuildEdges(lines);
    if a in g {
      assert multiset(g[m])[a] == multiset(g[a])[m];
    }
  }

  // ---------------------------------------------------------------------------
  // Size: every node is made by a line.

  /** Each line makes at most one node, so the graph has no more nodes than the input has lines. */
  lemma {:induction false} BuildSize(lines: seq<string>)
    requires CreditsFollowActor(lines)
    ensures |Build(lines).graph| <= |lines|
    decreases |lines|
  {
    if |lines| > 0 {
      var n := |lines| - 1;
      PrefixCreditsFollowActor(lines, n);
      BuildSize(lines[..n]);
      var s := Build(lines[..n]);
      assert Build(lines) == Step(s, lines[n], n);
      match Classify(lines[n])
      case ActorLine(name) =>
        assert |s.graph[ActorNode(name, n) := []]| <= |s.graph| + 1;
      case TitleLine(title) =>
        var a := s.current.value;
        var m := MovieNode(title);
        assert |s.graph[a := s.graph[a] + [m]]| == |s.graph|;
      case Ignored =>
    }
  }
}
