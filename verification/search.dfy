/**
 * The breadth-first search from the reference actor: it gives every node it
 * reaches a hop count and a predecessor, and leaves the others at the sentinel.
 */
module Search {
  import opened Outcomes
  import opened Nodes
  import opened Graphs

  /** Java's `Integer.MAX_VALUE`: the hop count of a node the search has not reached. */
  const Unreached: nat := 0x7fff_ffff

  type Distances = map<NodeId, nat>
  type Predecessors = map<NodeId, NodeId>

  /** The search's results: a hop count for every node, and a predecessor for every reached node but the root. */
  datatype Labels = Labels(dist: Distances, pred: Predecessors)

  ghost function Seen(g: Graph, dist: Distances): set<NodeId> {
    set v | v in g && v in dist && dist[v] != Unreached
  }

  /**
   * The predecessor links form a tree rooted at `root`: the root is at hop 0
   * without a predecessor, and every other reached node sits one hop further
   * than its predecessor, of which it is a neighbour.
   */
  ghost predicate IsTree(g: Graph, root: NodeId, dist: Distances, pred: Predecessors) {
    && dist.Keys == g.Keys
    && root in g && dist[root] == 0 && root !in pred
    && (forall v | v in pred ::
          && v in g && pred[v] in g && v in g[pred[v]]
          && dist[v] != Unreached && dist[pred[v]] != Unreached
          && dist[v] == dist[pred[v]] + 1)
    // triggered on membership in `pred` only, so that following predecessors does not unfold without end
    && (forall v {:trigger v in pred} | v in g && v != root && dist[v] != Unreached :: v in pred)
  }

  /** Every hop count handed out is smaller than the number of nodes reached so far. */
  ghost predicate Bounded(g: Graph, dist: Distances)
    requires dist.Keys == g.Keys
  {
    forall v | v in g && dist[v] != Unreached :: dist[v] < |Seen(g, dist)|
  }

  /** Every neighbour of a reached `u` is reached, at most one hop further than `u`. */
  ghost predicate Settled(g: Graph, dist: Distances, u: NodeId)
    requires dist.Keys == g.Keys && Closed(g) && u in g
  {
    dist[u] != Unreached ==> forall w | w in g[u] :: dist[w] != Unreached && dist[w] <= dist[u] + 1
  }

  /** What the search leaves behind: a tree of predecessors, hop counts below the number of reached nodes, and every reached node settled. */
  ghost predicate IsBfsLabelling(g: Graph, root: NodeId, labels: Labels) {
    && Closed(g)
    && IsTree(g, root, labels.dist, labels.pred)
    && Bounded(g, labels.dist)
    && forall u | u in g :: Settled(g, labels.dist, u)
  }

  predicate Distinct(q: seq<NodeId>) {
    forall i, j | 0 <= i < j < |q| :: q[i] != q[j]
  }

  /** The queue holds reached nodes in non-decreasing order of hop count, all at hop `d` or `d + 1`. */
  ghost predicate QueueWithin(g: Graph, dist: Distances, q: seq<NodeId>, d: nat)
    requires dist.Keys == g.Keys
  {
    && (forall i | 0 <= i < |q| :: q[i] in g && dist[q[i]] != Unreached && d <= dist[q[i]] <= d + 1)
    && (forall i, j | 0 <= i < j < |q| :: dist[q[i]] <= dist[q[j]])
  }

  lemma SubsetSize<T>(a: set<T>, b: set<T>)
    requires a <= b
    ensures |a| <= |b|
  {
    assert b == a + (b - a);
  }

  /** Reaching one more node, at hop `e`, keeps the hop counts below the number of nodes reached. */
  lemma Discover(g: Graph, dist: Distances, w: NodeId, d: nat, e: nat)
    requires dist.Keys == g.Keys && |g| <= Unreached && Bounded(g, dist)
    requires w in g && dist[w] == Unreached && d < |Seen(g, dist)| && e == d + 1
    ensures e != Unreached
    ensures Seen(g, dist[w := e]) == Seen(g, dist) + {w}
    ensures Bounded(g, dist[w := e])
  {
    var seen := Seen(g, dist);
    SubsetSize(seen + {w}, g.Keys);
    assert |g.Keys| == |g|;
    assert Seen(g, dist[w := e]) == seen + {w};
  }

  /** The labels of the nodes reached in `dist` are the same in `dist'` and `pred'`. */
  ghost predicate KeepsReached(g: Graph, dist: Distances, pred: Predecessors, dist': Distances, pred': Predecessors)
    requires dist.Keys == g.Keys && dist'.Keys == g.Keys
  {
    forall v | v in g && dist[v] != Unreached ::
      dist'[v] == dist[v] && (v in pred' <==> v in pred) && (v in pred ==> pred'[v] == pred[v])
  }

  /** Every reached node is at most `d` hops from the root. */
  ghost predicate WithinHops(g: Graph, dist: Distances, d: nat)
    requires dist.Keys == g.Keys
  {
    forall v | v in g && dist[v] != Unreached :: dist[v] <= d
  }

  /**
   * `found` holds exactly the nodes reached in `dist'` but not in `dist`, each
   * at hop `dist[n] + 1` with predecessor `n`.
   */
  ghost predicate Discovered(g: Graph, dist: Distances, dist': Distances, pred': Predecessors, n: NodeId, found: seq<NodeId>)
    requires dist.Keys == g.Keys && dist'.Keys == g.Keys && n in g
  {
    && (forall v | v in g :: (dist[v] == Unreached && dist'[v] != Unreached) <==> v in found)
    && (forall v | v in found :: v in g && dist'[v] == dist[n] + 1 && v in pred' && pred'[v] == n)
  }

  lemma TreeExtend(g: Graph, root: NodeId, dist: Distances, pred: Predecessors, n: NodeId, w: NodeId, e: nat)
    requires IsTree(g, root, dist, pred)
    requires n in g && dist[n] != Unreached && e == dist[n] + 1 && e != Unreached
    requires w in g[n] && w in g && dist[w] == Unreached
    ensures IsTree(g, root, dist[w := e], pred[w := n])
  {
  }

  lemma KeepsExtend(g: Graph, dist: Distances, pred: Predecessors, dist': Distances, pred': Predecessors,
                    w: NodeId, n: NodeId, e: nat)
    requires dist.Keys == g.Keys && dist'.Keys == g.Keys && w in g && dist'[w] == Unreached
    requires KeepsReached(g, dist, pred, dist', pred')
    ensures KeepsReached(g, dist, pred, dist'[w := e], pred'[w := n])
  {
  }

  lemma WithinExtend(g: Graph, dist: Distances, w: NodeId, e: nat)
    requires dist.Keys == g.Keys && w in g && WithinHops(g, dist, e)
    ensures WithinHops(g, dist[w := e], e)
  {
  }

  lemma DiscoveredExtend(g: Graph, dist: Distances, dist': Distances, pred': Predecessors, n: NodeId,
                         found: seq<NodeId>, w: NodeId, e: nat)
    requires dist.Keys == g.Keys && dist'.Keys == g.Keys && n in g && w in g
    requires Discovered(g, dist, dist', pred', n, found)
    requires dist[w] == Unreached && dist'[w] == Unreached && e == dist[n] + 1 && e != Unreached
    ensures Discovered(g, dist, dist'[w := e], pred'[w := n], n, found + [w])
  {
  }

  /** The queue after scanning: the old queue, then the nodes just reached, each one hop further than `n`. */
  lemma QueueJoin(g: Graph, dist: Distances, pred: Predecessors, dist': Distances, pred': Predecessors,
                  q: seq<NodeId>, found: seq<NodeId>, n: NodeId)
    requires dist.Keys == g.Keys && dist'.Keys == g.Keys && n in g && dist[n] != Unreached
    requires QueueWithin(g, dist, q, dist[n]) && Distinct(q) && Distinct(found)
    requires KeepsReached(g, dist, pred, dist', pred') && Discovered(g, dist, dist', pred', n, found)
    ensures QueueWithin(g, dist', q + found, dist[n]) && Distinct(q + found)
  {
    var q' := q + found;
    forall i | 0 <= i < |q'|
      ensures q'[i] in g && dist'[q'[i]] != Unreached && dist[n] <= dist'[q'[i]] <= dist[n] + 1
    {
      if i >= |q| {
        assert q'[i] == found[i - |q|];
      }
    }
    forall i, j | 0 <= i < j < |q'|
      ensures dist'[q'[i]] <= dist'[q'[j]] && q'[i] != q'[j]
    {
      if j < |q| {
        assert q'[i] == q[i] && q'[j] == q[j];
      } else if i < |q| {
        assert q'[i] == q[i] && q'[j] == found[j - |q|];
        assert q'[j] in found;
      } else {
        assert q'[i] == found[i - |q|] && q'[j] == found[j - |q|];
      }
    }
  }

  /**
   * The nodes of `ns` still at the sentinel in `dist`, each at its first
   * occurrence, in the order of `ns`: the nodes a scan of the adjacency list
   * `ns` appends to the queue.
   */
  function NewNeighbours(ns: seq<NodeId>, dist: Distances): seq<NodeId> {
    if |ns| == 0 then []
    else
      var before := NewNeighbours(ns[..|ns| - 1], dist);
      var w := ns[|ns| - 1];
      if w in dist && dist[w] == Unreached && w !in before then before + [w] else before
  }

  /** The first `i` neighbours of `n` are reached. */
  ghost predicate Covered(g: Graph, dist: Distances, n: NodeId, i: nat)
    requires Closed(g) && dist.Keys == g.Keys && n in g && i <= |g[n]|
  {
    forall j | 0 <= j < i :: dist[g[n][j]] != Unreached
  }

  /** The labels while the neighbours of `n` are scanned: a tree, extending the labels before the scan. */
  ghost predicate ScanShape(g: Graph, root: NodeId, dist: Distances, pred: Predecessors, n: NodeId,
                            dist': Distances, pred': Predecessors)
  {
    && Closed(g) && |g| <= Unreached
    && IsTree(g, root, dist, pred) && n in g && dist[n] != Unreached
    && IsTree(g, root, dist', pred') && Bounded(g, dist')
    && KeepsReached(g, dist, pred, dist', pred')
    && WithinHops(g, dist', dist[n] + 1)
  }

  /** The nodes reached so far by the scan of `n`, of whose neighbours the first `i` are reached. */
  ghost predicate ScanFound(g: Graph, dist: Distances, n: NodeId, dist': Distances, pred': Predecessors,
                            found: seq<NodeId>, i: nat)
  {
    && Closed(g) && dist.Keys == g.Keys && dist'.Keys == g.Keys && n in g && i <= |g[n]|
    && Discovered(g, dist, dist', pred', n, found) && Distinct(found)
    && Covered(g, dist', n, i)
  }

  /** Scanning a neighbour that is already reached changes nothing but the count of scanned neighbours. */
  lemma ScanSkip(g: Graph, dist: Distances, n: NodeId, dist': Distances, pred': Predecessors, found: seq<NodeId>, i: nat)
    requires ScanFound(g, dist, n, dist', pred', found, i)
    requires i < |g[n]| && dist'[g[n][i]] != Unreached
    ensures ScanFound(g, dist, n, dist', pred', found, i + 1)
  {
  }

  /** Reaching the neighbour `w` of `n` keeps the labels a tree that extends the labels before the scan. */
  lemma ScanReachShape(g: Graph, root: NodeId, dist: Distances, pred: Predecessors, n: NodeId,
                       dist': Distances, pred': Predecessors, w: NodeId)
    requires ScanShape(g, root, dist, pred, n, dist', pred')
    requires w in g[n] && dist'[w] == Unreached
    ensures ScanShape(g, root, dist, pred, n, dist'[w := dist'[n] + 1], pred'[w := n])
    ensures dist[w] == Unreached && dist'[n] == dist[n] && dist[n] + 1 != Unreached
  {
    assert dist'[n] == dist[n] && dist[w] == Unreached;
    var e := dist'[n] + 1;
    Discover(g, dist', w, dist'[n], e);
    TreeExtend(g, root, dist', pred', n, w, e);
    KeepsExtend(g, dist, pred, dist', pred', w, n, e);
    WithinExtend(g, dist', w, e);
  }

  /** Reaching the `i`th neighbour `w` of `n` adds it to the nodes found. */
  lemma ScanReachFound(g: Graph, dist: Distances, n: NodeId, dist': Distances, pred': Predecessors,
                       found: seq<NodeId>, i: nat, w: NodeId)
    requires ScanFound(g, dist, n, dist', pred', found, i)
    requires i < |g[n]| && w == g[n][i] && dist'[w] == Unreached && dist[w] == Unreached
    requires dist'[n] == dist[n] && dist[n] + 1 != Unreached
    ensures ScanFound(g, dist, n, dist'[w := dist'[n] + 1], pred'[w := n], found + [w], i + 1)
  {
    DiscoveredExtend(g, dist, dist', pred', n, found, w, dist'[n] + 1);
    FoundExtend(g, dist, dist', pred', n, found, w);
    CoveredExtend(g, dist', n, i, dist'[n] + 1);
  }

  /** Scanning the `i`th neighbour of `n` appends it to the nodes found exactly when it is still at the sentinel. */
  lemma ScanOrder(g: Graph, dist: Distances, pred: Predecessors, n: NodeId, dist': Distances, pred': Predecessors,
                  found: seq<NodeId>, i: nat)
    requires ScanFound(g, dist, n, dist', pred', found, i) && KeepsReached(g, dist, pred, dist', pred')
    requires i < |g[n]| && found == NewNeighbours(g[n][..i], dist)
    ensures NewNeighbours(g[n][..i + 1], dist) == if dist'[g[n][i]] == Unreached then found + [g[n][i]] else found
  {
    assert g[n][..i + 1][..i] == g[n][..i];
  }

  /** A node reached now for the first time is not among those reached before it. */
  lemma FoundExtend(g: Graph, dist: Distances, dist': Distances, pred': Predecessors, n: NodeId,
                    found: seq<NodeId>, w: NodeId)
    requires dist.Keys == g.Keys && dist'.Keys == g.Keys && n in g && w in g
    requires Discovered(g, dist, dist', pred', n, found) && Distinct(found) && dist'[w] == Unreached
    ensures Distinct(found + [w])
  {
    assert w !in found;
  }

  lemma CoveredExtend(g: Graph, dist: Distances, n: NodeId, i: nat, e: nat)
    requires Closed(g) && dist.Keys == g.Keys && n in g && i < |g[n]| && Covered(g, dist, n, i)
    requires e != Unreached
    ensures Covered(g, dist[g[n][i] := e], n, i + 1)
  {
  }

  /**
   * The inner loop of the search: every neighbour of `n` still at the
   * sentinel gets hop count `dist[n] + 1` and predecessor `n`, and joins the
   * back of the queue, in adjacency order. Reached nodes keep their labels,
   * so a hop count and its predecessor are assigned at most once.
   */
  method ScanNeighbours(g: Graph, root: NodeId, dist: Distances, pred: Predecessors, q: seq<NodeId>, n: NodeId)
    returns (dist': Distances, pred': Predecessors, q': seq<NodeId>)
    requires Closed(g) && |g| <= Unreached
    requires IsTree(g, root, dist, pred) && Bounded(g, dist)
    requires n in g && dist[n] != Unreached
    requires WithinHops(g, dist, dist[n] + 1)
    requires QueueWithin(g, dist, q, dist[n]) && Distinct(q)
    ensures IsTree(g, root, dist', pred') && Bounded(g, dist')
    ensures KeepsReached(g, dist, pred, dist', pred')
    ensures forall w | w in g[n] :: dist'[w] != Unreached
    ensures WithinHops(g, dist', dist[n] + 1)
    ensures |q| <= |q'| && q'[..|q|] == q && Discovered(g, dist, dist', pred', n, q'[|q|..])
    ensures q'[|q|..] == NewNeighbours(g[n], dist)
    ensures QueueWithin(g, dist', q', dist[n]) && Distinct(q')
  {
    ScanStart(g, root, dist, pred, n);
    var found;
    dist', pred', found := ScanLoop(g, root, dist, pred, n);
    q' := q + found;
    ScanDone(g, dist, n, dist', pred', found);
    QueueJoin(g, dist, pred, dist', pred', q, found, n);
    assert q'[..|q|] == q && q'[|q|..] == found;
  }

  /** The loop over the neighbours of `n`; `found` lists the nodes it reaches, in the order it reaches them. */
  method ScanLoop(g: Graph, root: NodeId, dist: Distances, pred: Predecessors, n: NodeId)
    returns (dist': Distances, pred': Predecessors, found: seq<NodeId>)
    requires ScanShape(g, root, dist, pred, n, dist, pred) && ScanFound(g, dist, n, dist, pred, [], 0)
    ensures ScanShape(g, root, dist, pred, n, dist', pred') && ScanFound(g, dist, n, dist', pred', found, |g[n]|)
    ensures found == NewNeighbours(g[n], dist)
  {
    dist', pred', found := dist, pred, [];
    var i := 0;
    while i < |g[n]|
      invariant ScanShape(g, root, dist, pred, n, dist', pred')
      invariant ScanFound(g, dist, n, dist', pred', found, i)
      invariant found == NewNeighbours(g[n][..i], dist)
    {
      dist', pred', found := ScanStep(g, root, dist, pred, n, dist', pred', found, i);
      i := i + 1;
    }
    assert g[n][..i] == g[n];
  }

  /** One turn of the loop over the neighbours of `n`: its `i`th neighbour is reached now unless it was before. */
  method ScanStep(g: Graph, root: NodeId, dist: Distances, pred: Predecessors, n: NodeId,
                  dist0: Distances, pred0: Predecessors, found0: seq<NodeId>, i: nat)
    returns (dist': Distances, pred': Predecessors, found: seq<NodeId>)
    requires ScanShape(g, root, dist, pred, n, dist0, pred0) && ScanFound(g, dist, n, dist0, pred0, found0, i)
    requires i < |g[n]| && found0 == NewNeighbours(g[n][..i], dist)
    ensures ScanShape(g, root, dist, pred, n, dist', pred') && ScanFound(g, dist, n, dist', pred', found, i + 1)
    ensures found == NewNeighbours(g[n][..i + 1], dist)
  {
    var w := g[n][i];
    ScanOrder(g, dist, pred, n, dist0, pred0, found0, i);
    if dist0[w] == Unreached {
      ScanReachShape(g, root, dist, pred, n, dist0, pred0, w);
      ScanReachFound(g, dist, n, dist0, pred0, found0, i, w);
      dist', pred', found := dist0[w := dist0[n] + 1], pred0[w := n], found0 + [w];
    } else {
      ScanSkip(g, dist, n, dist0, pred0, found0, i);
      dist', pred', found := dist0, pred0, found0;
    }
  }

  /** Before the scan nothing is found, and the labels extend themselves. */
  lemma ScanStart(g: Graph, root: NodeId, dist: Distances, pred: Predecessors, n: NodeId)
    requires Closed(g) && |g| <= Unreached
    requires IsTree(g, root, dist, pred) && Bounded(g, dist)
    requires n in g && dist[n] != Unreached
    requires WithinHops(g, dist, dist[n] + 1)
    ensures ScanShape(g, root, dist, pred, n, dist, pred)
    ensures ScanFound(g, dist, n, dist, pred, [], 0)
  {
  }

  lemma ScanDone(g: Graph, dist: Distances, n: NodeId, dist': Distances, pred': Predecessors, found: seq<NodeId>)
    requires n in g && ScanFound(g, dist, n, dist', pred', found, |g[n]|)
    ensures forall w | w in g[n] :: dist'[w] != Unreached
  {
    forall w | w in g[n]
      ensures dist'[w] != Unreached
    {
      var j :| 0 <= j < |g[n]| && g[n][j] == w;
    }
  }

  /**
   * The labels at the head of the search loop: a tree with bounded hop
   * counts, and `done`, the nodes taken off the queue, reached and settled.
   */
  ghost predicate FrontierShape(g: Graph, root: NodeId, dist: Distances, pred: Predecessors, done: set<NodeId>) {
    && Closed(g) && |g| <= Unreached
    && IsTree(g, root, dist, pred) && Bounded(g, dist)
    && done <= g.Keys
    && (forall u | u in done :: dist[u] != Unreached && Settled(g, dist, u))
  }

  /**
   * The queue at the head of the search loop: every reached node is done or
   * queued, not both; the queue is ordered by hop count and spans at most two
   * counts, and done nodes are no further from the root than its head.
   */
  ghost predicate FrontierQueue(g: Graph, dist: Distances, q: seq<NodeId>, done: set<NodeId>) {
    && dist.Keys == g.Keys && done <= g.Keys
    && (forall i | 0 <= i < |q| :: q[i] in g && dist[q[i]] != Unreached && q[i] !in done)
    && Distinct(q)
    && (|q| > 0 ==> QueueWithin(g, dist, q, dist[q[0]]))
    && (forall v | v in g :: dist[v] != Unreached <==> v in done || v in q)
    && (|q| > 0 ==> forall u | u in done :: dist[u] <= dist[q[0]])
  }

  /** Taking the head off the queue: every reached node is at most one hop further than it. */
  lemma HeadBound(g: Graph, dist: Distances, q: seq<NodeId>, done: set<NodeId>)
    requires FrontierQueue(g, dist, q, done) && |q| > 0
    ensures WithinHops(g, dist, dist[q[0]] + 1)
    ensures QueueWithin(g, dist, q[1..], dist[q[0]]) && Distinct(q[1..])
  {
    forall v | v in g && dist[v] != Unreached
      ensures dist[v] <= dist[q[0]] + 1
    {
      if v !in done {
        var k :| 0 <= k < |q| && q[k] == v;
      }
    }
  }

  /** The queue after scanning: the old queue without its head, followed by the nodes just reached. */
  lemma FrontierMembers(g: Graph, dist: Distances, q: seq<NodeId>, done: set<NodeId>, dist': Distances, pred': Predecessors, q': seq<NodeId>)
    requires dist.Keys == g.Keys && dist'.Keys == g.Keys && |q| > 0 && q[0] in g
    requires forall i | 0 <= i < |q| :: q[i] in g && dist[q[i]] != Unreached && q[i] !in done
    requires Distinct(q)
    requires forall v | v in g :: dist[v] != Unreached <==> v in done || v in q
    requires forall v | v in g && dist[v] != Unreached :: dist'[v] == dist[v]
    requires |q| - 1 <= |q'| && q'[..|q| - 1] == q[1..] && Discovered(g, dist, dist', pred', q[0], q'[|q| - 1..])
    requires forall i | 0 <= i < |q'| :: q'[i] in g && dist'[q'[i]] != Unreached
    ensures forall i | 0 <= i < |q'| :: q'[i] !in done + {q[0]}
    ensures forall v | v in g :: dist'[v] != Unreached <==> v in done + {q[0]} || v in q'
  {
    var n := q[0];
    var done' := done + {n};
    forall i | 0 <= i < |q'|
      ensures q'[i] !in done'
    {
      if i < |q| - 1 {
        assert q'[i] == q[i + 1];
      } else {
        assert q'[i] in q'[|q| - 1..];
      }
    }
    forall v | v in g
      ensures dist'[v] != Unreached <==> v in done' || v in q'
    {
      if v in q' {
        var k :| 0 <= k < |q'| && q'[k] == v;
      }
      if dist[v] != Unreached && v !in done' {
        var k :| 0 <= k < |q| && q[k] == v;
        assert q'[k - 1] == v;
      }
      if dist[v] == Unreached && dist'[v] != Unreached {
        var k :| |q| - 1 <= k < |q'| && q'[k] == v;
      }
    }
  }

  /** Nodes done before stay settled, and the scanned head is settled now. */
  lemma FrontierSettled(g: Graph, dist: Distances, pred: Predecessors, done: set<NodeId>, n: NodeId, dist': Distances, pred': Predecessors)
    requires Closed(g) && dist.Keys == g.Keys && dist'.Keys == g.Keys && n in g && dist[n] != Unreached && done <= g.Keys
    requires forall u | u in done :: dist[u] != Unreached && Settled(g, dist, u)
    requires KeepsReached(g, dist, pred, dist', pred')
    requires forall w | w in g[n] :: dist'[w] != Unreached
    requires WithinHops(g, dist', dist[n] + 1)
    ensures forall u | u in done + {n} :: Settled(g, dist', u)
  {
    forall u | u in done + {n}
      ensures Settled(g, dist', u)
    {
      assert dist[u] != Unreached ==> dist'[u] == dist[u];
      if u in done && dist[u] != Unreached {
        assert Settled(g, dist, u);
        forall w | w in g[u]
          ensures dist'[w] != Unreached && dist'[w] <= dist'[u] + 1
        {
          assert dist'[w] == dist[w];
        }
      }
    }
  }

  /** The queue after scanning is ordered and spans two hop counts; done nodes are no further than its head. */
  lemma FrontierOrder(g: Graph, dist: Distances, q: seq<NodeId>, done: set<NodeId>, dist': Distances, q': seq<NodeId>)
    requires dist.Keys == g.Keys && dist'.Keys == g.Keys && |q| > 0 && q[0] in g && done <= g.Keys
    requires QueueWithin(g, dist, q, dist[q[0]])
    requires forall u | u in done :: dist[u] <= dist[q[0]]
    requires forall v | v in g && dist[v] != Unreached :: dist'[v] == dist[v]
    requires QueueWithin(g, dist', q', dist[q[0]])
    requires forall u | u in done :: dist[u] != Unreached
    ensures |q'| > 0 ==> QueueWithin(g, dist', q', dist'[q'[0]])
    ensures |q'| > 0 ==> forall u | u in done + {q[0]} :: dist'[u] <= dist'[q'[0]]
  {
  }

  /** Scanning the head's neighbours and marking it done keeps `FrontierShape`. */
  lemma FrontierStepShape(g: Graph, root: NodeId, dist: Distances, pred: Predecessors, done: set<NodeId>, n: NodeId,
                          dist': Distances, pred': Predecessors)
    requires FrontierShape(g, root, dist, pred, done) && n in g && dist[n] != Unreached
    requires IsTree(g, root, dist', pred') && Bounded(g, dist')
    requires KeepsReached(g, dist, pred, dist', pred')
    requires forall w | w in g[n] :: dist'[w] != Unreached
    requires WithinHops(g, dist', dist[n] + 1)
    ensures FrontierShape(g, root, dist', pred', done + {n})
  {
    FrontierSettled(g, dist, pred, done, n, dist', pred');
  }

  /** Scanning the head's neighbours and marking it done keeps `FrontierQueue`. */
  lemma FrontierStepQueue(g: Graph, dist: Distances, pred: Predecessors, q: seq<NodeId>, done: set<NodeId>,
                          dist': Distances, pred': Predecessors, q': seq<NodeId>)
    requires FrontierQueue(g, dist, q, done) && |q| > 0
    requires dist'.Keys == g.Keys && KeepsReached(g, dist, pred, dist', pred')
    requires |q| - 1 <= |q'| && q'[..|q| - 1] == q[1..] && Discovered(g, dist, dist', pred', q[0], q'[|q| - 1..])
    requires QueueWithin(g, dist', q', dist[q[0]]) && Distinct(q')
    ensures FrontierQueue(g, dist', q', done + {q[0]})
  {
    assert forall u | u in done :: dist[u] != Unreached;
    FrontierMembers(g, dist, q, done, dist', pred', q');
    FrontierOrder(g, dist, q, done, dist', q');
  }

  /**
   * The search from the node of the reference actor `center`. A missing
   * reference actor is the `NoBacon` error; otherwise the labels satisfy
   * `IsBfsLabelling`, whose consequences are the lemmas below.
   */
  method BreadthFirstSearch(g: Graph, actors: map<string, NodeId>, center: string) returns (r: Result<Labels>)
    requires Closed(g) && |g| <= Unreached
    requires forall name | name in actors :: actors[name] in g
    ensures r.Failure? <==> center !in actors
    ensures r.Failure? ==> r.error == NoBacon("Kevin Bacon was not found")
    ensures r.Success? ==> IsBfsLabelling(g, actors[center], r.value)
  {
    if center !in actors {
      return Failure(NoBacon("Kevin Bacon was not found"));
    }
    var root := actors[center];
    var dist: Distances := map v | v in g :: Unreached;
    dist := dist[root := 0];
    var pred: Predecessors := map[];
    var q := [root];
    SearchStart(g, root, dist, pred);
    dist, pred := Explore(g, root, dist, pred, q);
    r := Success(Labels(dist, pred));
  }

  /**
   * The search loop: takes the head off the queue, scans its neighbours, and
   * stops when the queue is empty.
   */
  method Explore(g: Graph, root: NodeId, dist0: Distances, pred0: Predecessors, q0: seq<NodeId>)
    returns (dist: Distances, pred: Predecessors)
    requires FrontierShape(g, root, dist0, pred0, {}) && FrontierQueue(g, dist0, q0, {})
    ensures IsBfsLabelling(g, root, Labels(dist, pred))
  {
    dist, pred := dist0, pred0;
    var q := q0;
    ghost var done: set<NodeId> := {};
    while |q| > 0
      invariant FrontierShape(g, root, dist, pred, done)
      invariant FrontierQueue(g, dist, q, done)
      decreases g.Keys - done
    {
      HeadBound(g, dist, q, done);
      var n := q[0];
      var dist', pred', q' := ScanNeighbours(g, root, dist, pred, q[1..], n);
      FrontierStepShape(g, root, dist, pred, done, n, dist', pred');
      FrontierStepQueue(g, dist, pred, q, done, dist', pred', q');
      dist, pred, q, done := dist', pred', q', done + {n};
    }
    SearchDone(g, root, dist, pred, done);
  }

  /** At the start only the root is reached, and it is queued. */
  lemma SearchStart(g: Graph, root: NodeId, dist: Distances, pred: Predecessors)
    requires Closed(g) && |g| <= Unreached && root in g
    requires dist == (map v | v in g :: Unreached)[root := 0] && pred == map[]
    ensures FrontierShape(g, root, dist, pred, {})
    ensures FrontierQueue(g, dist, [root], {})
  {
    assert Seen(g, dist) == {root};
  }

  /** When the queue is empty, every node is settled. */
  lemma SearchDone(g: Graph, root: NodeId, dist: Distances, pred: Predecessors, done: set<NodeId>)
    requires FrontierShape(g, root, dist, pred, done) && FrontierQueue(g, dist, [], done)
    ensures IsBfsLabelling(g, root, Labels(dist, pred))
  {
    forall u | u in g
      ensures Settled(g, dist, u)
    {
      if dist[u] != Unreached {
        assert u in done;
      }
    }
  }
}
