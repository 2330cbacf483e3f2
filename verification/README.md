# BaconGraph in Dafny

A model of the `BaconGraph` class: it reads a list of actors and the movies
each actor appeared in, builds a bipartite graph of actor and movie nodes,
runs a breadth-first search from a reference actor ("Bacon, Kevin (I)" in
`BaconGraph.java`, a parameter `center` here), and then answers two queries:

- the Bacon number of an actor: half the hop count from the reference actor;
- the Bacon path: the chain of actors and movies from the reference actor,
  each rendered as `<a>name<a>` or `<t>title<t>`.

The input is a sequence of lines rather than a file. A line starting with
`<a>` declares an actor, a line starting with `<t>` credits the current actor
with a movie, and every other line is ignored.

Modules, one file each:

- `Outcomes` (`outcomes.dfy`): `Option`, `Result`, and the two exceptions (`NoBacon`, `IllegalArgument`).
- `Nodes` (`nodes.dfy`): node kinds and their markers, node identities, line classification, rendering, and Java's `isBlank`.
- `Graphs` (`graphs.dfy`): the adjacency-list graph, paths, reachability and shortest paths.
- `Builder` (`builder.dfy`): `readFile` as a fold of one step per line, and what the resulting graph and actor map hold.
- `Search` (`search.dfy`): `breadthFirstSearch`, as loops over a FIFO queue with the invariants that prove it.
- `Trees` (`trees.dfy`): what the search labels mean, namely chains of predecessors, shortest paths, reachability and parity.
- `Queries` (`queries.dfy`): `getBaconNumber`, `getActor`, `getBaconPath` and `Node.getPath`.
- `Bacon` (`bacon_graph.dfy`): the constructor, and a worked example with two co-stars.

Some modelling choices:

- **Actor node identity.** Every actor line makes a new actor node, even for a
  name seen before. The actor map then points at the newest node, but older
  nodes stay in the graph, keep their links, and can lie on search paths. A
  node is therefore `ActorNode(name, line)`, where `line` is the index of the
  declaring line.
- **Movie node identity.** A movie node is `MovieNode(title)`: a repeated
  title reuses the node made the first time.
- **Adjacency lists** are sequences in insertion order. A repeated credit
  appears once per credit, as in the `ArrayList` adjacency lists of `BaconGraph.Node`.
- **The sentinel.** Java's `Integer.MAX_VALUE` is the constant `Unreached`,
  the hop count of a node the search has not reached.
- **Blank names.** `Nodes.IsBlank` tests each character, a Unicode scalar value,
  with Java's `Character.isWhitespace`. Java's `isBlank` tests code points, and
  every code point that method accepts lies in the basic plane, so the two agree.

## Model

| member | source | states |
|---|---|---|
| Nodes.Prefix | src/BaconGraph.java:195-203 | each node kind has a three-character marker of the form `<x>` |
| Nodes.PrefixesDiffer | src/BaconGraph.java:196 | the actor marker and the movie marker differ |
| Nodes.Render | src/BaconGraph.java:222 | a rendered node is its name between two copies of its kind's marker, and the name can be read back from the middle |
| Nodes.Classify | src/BaconGraph.java:126-132 | a line is an actor line exactly when it starts with `<a>`, a title line exactly when it starts with `<t>`, and the line is the marker followed by the declared name |
| Nodes.ClassifyMarked | src/BaconGraph.java:126-132 | writing a name after a marker and classifying the line gives back the same declaration |
| Nodes.FirstNonWhitespace | src/BaconGraph.java:190 | the JDK's `String.isBlank`, which `getActor` calls, scans for the first non-whitespace character: the scan stops at the first character `Character.isWhitespace` rejects: every character before it is whitespace, and it is the string's length when there is none |
| Nodes.BlankIffScanEnds | src/BaconGraph.java:190 | `Nodes.IsBlank`, the model of the JDK's `String.isBlank` that `getActor` calls, holds exactly when every character is whitespace, which is when that scan finds nothing |
| Builder.StepWellFormed | src/BaconGraph.java:126-140 | one input line keeps the graph closed, symmetric and bipartite, every actor node older than the line, and the actor map and current actor pointing into the graph |
| Builder.StepActors | src/BaconGraph.java:126-129 | an actor line maps its name to the new actor node and overwrites an earlier declaration; every other line leaves the actor map alone |
| Builder.StepEdge | src/BaconGraph.java:126-139 | an actor node made by the line has no neighbours yet; an older actor node gains a movie exactly when the line is a title line for that movie and the node is the current actor |
| Builder.LinkNodes | src/BaconGraph.java:133-139 | a credit adds no node but the movie; an existing movie node is reused and keeps its cast, with the actor appended to both adjacency lists and every other list unchanged |
| Builder.LinkMultiplicity | src/BaconGraph.java:138-139 | a credit adds the edge between actor and movie once at each end and changes no other edge count |
| Builder.Build | src/BaconGraph.java:118-142 | after the input there is a current actor exactly when some line declares an actor, and it is the node of the last actor line |
| Builder.BuildWellFormed | src/BaconGraph.java:126-140 | the graph is closed; every edge is recorded at both ends equally often; actors neighbour only movies and movies only actors; the actor map points at actor nodes with the same name |
| Builder.LinkKeepsShape | src/BaconGraph.java:138-139 | adding a credit in both directions keeps the graph closed, symmetric and bipartite |
| Builder.BuildNodes | src/BaconGraph.java:126-137 | the nodes are exactly one actor node per actor line and one movie node per title that some title line carries |
| Builder.MovieNodesAreTitles | src/BaconGraph.java:133-137 | the movie nodes are in one-to-one correspondence with the distinct titles, so there are as many movie nodes as distinct titles |
| Builder.BuildActors | src/BaconGraph.java:127-129 | a name is in the actor map exactly when some line declares it, and it maps to the node of its last declaration |
| Builder.BuildEdges | src/BaconGraph.java:131-139 | an actor node neighbours a movie exactly when a title line for that movie follows its actor line before the next actor line |
| Builder.CastOfMovie | src/BaconGraph.java:138-139 | a movie node neighbours exactly the actor nodes credited with it |
| Builder.BuildSize | src/BaconGraph.java:125-142 | there are no more nodes than input lines |
| Search.ScanStep | src/BaconGraph.java:164-167 | one neighbour of the node taken off the queue is reached now exactly when it is still at the sentinel, and is then recorded after the neighbours found before it |
| Search.ScanLoop | src/BaconGraph.java:163-168 | the loop over the adjacency list reaches every neighbour; the nodes it reaches are exactly those still at the sentinel, each once, in adjacency order, one hop further than the node and with it as predecessor |
| Search.ScanNeighbours | src/BaconGraph.java:162-168 | scanning a node's neighbours reaches all of them; labels already given stay as they were; the neighbours newly reached get hop count one more than the node's and the node as predecessor, and join the back of the queue in adjacency order |
| Search.Explore | src/BaconGraph.java:160-169 | when the queue runs empty, the labels form a predecessor tree in which every reached node's neighbours are reached at most one hop further |
| Search.BreadthFirstSearch | src/BaconGraph.java:150-172 | a missing reference actor is the `NoBacon` error with the message `breadthFirstSearch` throws; otherwise the labels form a breadth-first labelling rooted at the reference actor's node: the root is at hop 0 with no predecessor, and every other reached node is one hop past a neighbouring predecessor |
| Trees.Chain | src/BaconGraph.java:218-224 | following predecessors from a node ends at a node without one; consecutive nodes of the chain are predecessor and successor |
| Trees.PathsAreNoShorter | src/BaconGraph.java:150-170 | every node on a walk from the root is reached, at a hop count below the walk's length |
| Trees.ChainIsShortest | src/BaconGraph.java:150-170 | the chain of a reached node is a shortest walk from the root; it has one node more than the node's hop count, and its i-th node is at hop i |
| Trees.ChainOfUnreached | src/BaconGraph.java:209-210 | a node the search did not reach is not the root, and its chain is the node alone |
| Trees.ReachedIffReachable | src/BaconGraph.java:150-170 | a node gets a hop count exactly when some walk leads to it from the root |
| Trees.HopParity | src/BaconGraph.java:178 | searching from an actor, actors are at even hop counts and movies at odd ones, so halving a hop count counts actor-to-actor steps |
| Trees.ChainAlternates | src/BaconGraph.java:218-224 | a chain starts at the root actor and alternates actor, movie, actor |
| Queries.BaconNumber | src/BaconGraph.java:174-179 | -1 exactly for an unknown name; for a reached actor, the number is half its hop count, rounded down |
| Queries.BaconNumberMeaning | src/BaconGraph.java:174-179 | -1 for an unknown name; the sentinel for an actor no walk from the reference actor reaches; otherwise n, where a shortest walk to the actor has 2n + 1 nodes |
| Queries.CenterNumber | src/BaconGraph.java:156-157 | the reference actor has Bacon number 0 |
| Queries.CostarNumber | src/BaconGraph.java:174-179 | another actor credited with a movie of the reference actor has Bacon number 1 |
| Queries.GetActor | src/BaconGraph.java:189-193 | a blank name is an `IllegalArgument` error with the message `getActor` throws; otherwise the lookup finds a node exactly when the name is in the actor map |
| Queries.Path | src/BaconGraph.java:218-224 | the path text of a node ends with the node's own rendering |
| Queries.PathRendersChain | src/BaconGraph.java:218-224 | the path text of a node is the rendering of its chain of predecessors, oldest first |
| Queries.BaconPath | src/BaconGraph.java:181-187 | a blank name is the `IllegalArgument` error; otherwise there is a path exactly when the name is known |
| Queries.BaconPathMeaning | src/BaconGraph.java:181-187 | for a known actor, the path renders a shortest walk from the reference actor with 2n + 1 nodes (n the Bacon number), alternating actor and movie; for an actor the search did not reach, the path is the actor alone |
| Bacon.NewBaconGraph | src/BaconGraph.java:83-100 | negative size hints are rejected before any line is read, whatever the lines hold, with the message the constructor throws; otherwise a missing reference actor is `NoBacon`; otherwise the graph built from the lines carries a breadth-first labelling from the reference actor |
| Bacon.UnknownName | src/BaconGraph.java:174-177 | a constructed graph answers -1 exactly for names that no actor line declares |
| Bacon.SampleBuild | src/BaconGraph.java:118-142 | the four-line sample builds two actors linked through one movie |
| Bacon.SampleCostars | src/BaconGraph.java:174-187 | in the sample, the co-star has Bacon number 1 and path `<a>X<a><t>M1<t><a>Y<a>` |

## Left out

- Reading the file: the input is the sequence of its lines. A null file name, a missing file and I/O errors are not modelled.
- Console output and timing are not modelled.
- `calculateHashMapCapacity` and hash map capacities are not modelled: they do not change any result. Only the rejection of negative size hints is modelled.
- Java `null` strings are not modelled, because names are values. A `null` query name therefore cannot be stated.
- Once the size hints pass, a title line before the first actor line makes `readFile` dereference a null actor. For non-negative hints the model excludes such input with the precondition `CreditsFollowActor` rather than modelling the exception.
- `src/TheBaconGame.java`, the interactive front end, is not part of this model.
- Bacon.NewBaconGraph: requires, when the size hints are not negative, no more input lines than `Integer.MAX_VALUE`. This keeps every real hop count below the sentinel; Java's `int` overflow past that size is not modelled.
- Search.BreadthFirstSearch: states that the labels form a breadth-first labelling, not which of several equally near predecessors is picked. The method picks as `breadthFirstSearch` does, in queue and adjacency order, but the contract leaves the choice open. The order in which one scan appends nodes to the queue is stated, by Search.ScanNeighbours.
- Builder.BuildEdges: states which movies an actor node neighbours, not the order of the adjacency lists. Multiplicities appear only through symmetry, in Builder.BuildWellFormed.
