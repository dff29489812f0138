/**
 * Dijkstra's algorithm with a lazily pruned queue, as the route planner runs
 * it: tentative distances start at Infinity (0 for the start node), the entry
 * with the smallest distance is taken off the queue, an already visited node
 * is skipped, and every road out of a newly visited node is relaxed, queueing
 * the neighbour again whenever its tentative distance strictly drops.
 */
module ShortestPath {
  import opened RoadGraph

  /** A tentative distance: JavaScript's `Infinity`, or a finite number. */
  datatype Dist = Infinity | Finite(value: real)

  /** A candidate distance improves a tentative one; every number is below Infinity. */
  predicate Improves(alt: real, d: Dist) {
    d.Infinity? || alt < d.value
  }

  /** A queue entry: a node and the distance it was queued with. */
  type Entry = (Node, real)

  /**
   * The entry a stable sort by distance would bring to the front: the first
   * entry of smallest distance.
   */
  method MinEntry(queue: seq<Entry>) returns (k: nat)
    requires |queue| > 0
    ensures k < |queue|
    ensures forall i :: 0 <= i < |queue| ==> queue[k].1 <= queue[i].1
    ensures forall i :: 0 <= i < k ==> queue[k].1 < queue[i].1
  {
    k := 0;
    var i := 1;
    while i < |queue|
      invariant 0 <= k < i <= |queue|
      invariant forall j :: 0 <= j < i ==> queue[k].1 <= queue[j].1
      invariant forall j :: 0 <= j < k ==> queue[k].1 < queue[j].1
    {
      if queue[i].1 < queue[k].1 {
        k := i;
      }
      i := i + 1;
    }
  }

  // ---------------------------------------------------------------------------
  // Loop invariants
  //
  // Each quantified invariant fires only on an explicit mention of its
  // per-node (or per-road) predicate, which keeps the proofs small.

  /** Some walk from s to n weighs exactly x. */
  ghost predicate Witnessed(g: Graph, s: Node, n: Node, x: real) {
    exists p :: WalkFromTo(g, p, s, n) && PathWeight(g, p) == x
  }

  /**
   * What the algorithm knows about node n: it has a tentative distance; a
   * finite one is non-negative and the weight of some walk from s; a visited
   * node's distance is finite and shortest; and an unvisited node with a
   * finite distance is queued with exactly that distance.
   */
  ghost predicate NodeOk(g: Graph, s: Node, dist: map<Node, Dist>, visited: set<Node>, queue: seq<Entry>, n: Node) {
    n in dist &&
    (dist[n].Finite? ==> dist[n].value >= 0.0 && Witnessed(g, s, n, dist[n].value)) &&
    (n in visited ==> dist[n].Finite? && LowerBound(g, s, n, dist[n].value)) &&
    (n !in visited && dist[n].Finite? ==> (n, dist[n].value) in queue)
  }

  /** No queue entry undercuts its node's tentative distance. */
  ghost predicate EntriesBounded(dist: map<Node, Dist>, queue: seq<Entry>) {
    forall i :: 0 <= i < |queue| ==>
      queue[i].0 in dist && dist[queue[i].0].Finite? && dist[queue[i].0].value <= queue[i].1
  }

  /** The road x -> y has been relaxed: y's distance is at most x's plus the road. */
  ghost predicate Tight(g: Graph, dist: map<Node, Dist>, x: Node, y: Node) {
    Edge(g, x, y) && x in dist && y in dist && dist[x].Finite? && dist[y].Finite? &&
    dist[y].value <= dist[x].value + g[x][y]
  }

  /** The facts shared by both loops. */
  ghost predicate Tentative(g: Graph, s: Node, dist: map<Node, Dist>, visited: set<Node>, queue: seq<Entry>) {
    (forall n: Node :: n in dist) && dist[s] == Finite(0.0) &&
    (forall n {:trigger NodeOk(g, s, dist, visited, queue, n)} :: NodeOk(g, s, dist, visited, queue, n)) &&
    EntriesBounded(dist, queue)
  }

  /** The invariant of the main loop: every road out of a visited node is relaxed. */
  ghost predicate Frontier(g: Graph, s: Node, dist: map<Node, Dist>, visited: set<Node>, queue: seq<Entry>) {
    Tentative(g, s, dist, visited, queue) &&
    forall x, y {:trigger Tight(g, dist, x, y)} :: x in visited && Edge(g, x, y) ==> Tight(g, dist, x, y)
  }

  /**
   * The invariant of the relaxation loop over the roads out of `u`, which was
   * just visited at distance `du`: the roads out of the other visited nodes,
   * and those to the neighbours no longer in `todo`, are relaxed.
   */
  ghost predicate Relaxing(g: Graph, s: Node, u: Node, du: real, todo: set<Node>,
                           dist: map<Node, Dist>, visited: set<Node>, queue: seq<Entry>) {
    u in g && todo <= g[u].Keys && u in visited && u in dist && dist[u] == Finite(du) &&
    Tentative(g, s, dist, visited, queue) &&
    (forall x, y {:trigger Tight(g, dist, x, y)} :: x in visited && x != u && Edge(g, x, y) ==> Tight(g, dist, x, y)) &&
    forall y {:trigger Tight(g, dist, u, y)} :: y in g[u] && y !in todo ==> Tight(g, dist, u, y)
  }

  // ---------------------------------------------------------------------------
  // Invariant maintenance

  /** An entry other than the k-th survives the removal of the k-th. */
  lemma RemoveEntry(queue: seq<Entry>, k: int, e: Entry)
    requires 0 <= k < |queue| && e in queue && e != queue[k]
    ensures e in queue[..k] + queue[k+1..]
  {
    var rest := queue[..k] + queue[k+1..];
    var i :| 0 <= i < |queue| && queue[i] == e;
    if i < k {
      assert rest[i] == e;
    } else {
      assert rest[i-1] == e;
    }
  }

  lemma RemoveBounded(dist: map<Node, Dist>, queue: seq<Entry>, k: int)
    requires EntriesBounded(dist, queue) && 0 <= k < |queue|
    ensures EntriesBounded(dist, queue[..k] + queue[k+1..])
  {
    var rest := queue[..k] + queue[k+1..];
    forall i | 0 <= i < |rest|
      ensures rest[i].0 in dist && dist[rest[i].0].Finite? && dist[rest[i].0].value <= rest[i].1
    {
      if i < k { assert rest[i] == queue[i]; } else { assert rest[i] == queue[i+1]; }
    }
  }

  /** An entry whose node is already visited is simply dropped. */
  lemma SkipVisited(g: Graph, s: Node, dist: map<Node, Dist>, visited: set<Node>, queue: seq<Entry>, k: int)
    requires Frontier(g, s, dist, visited, queue) && 0 <= k < |queue| && queue[k].0 in visited
    ensures Frontier(g, s, dist, visited, queue[..k] + queue[k+1..])
  {
    var rest := queue[..k] + queue[k+1..];
    RemoveBounded(dist, queue, k);
    forall n ensures NodeOk(g, s, dist, visited, rest, n) {
      assert NodeOk(g, s, dist, visited, queue, n);
      if n !in visited && dist[n].Finite? {
        RemoveEntry(queue, k, (n, dist[n].value));
      }
    }
  }

  /**
   * The key step: the first cheapest queue entry of an unvisited node carries
   * that node's shortest distance.  Any walk to it leaves the visited set on
   * some road x -> y; the road was relaxed, so y is queued no dearer than the
   * walk's prefix up to y, and no queue entry is cheaper than the chosen one.
   */
  lemma PopIsShortest(g: Graph, s: Node, dist: map<Node, Dist>, visited: set<Node>, queue: seq<Entry>, k: int)
    requires ValidGraph(g) && Frontier(g, s, dist, visited, queue)
    requires 0 <= k < |queue| && forall i :: 0 <= i < |queue| ==> queue[k].1 <= queue[i].1
    requires queue[k].0 !in visited
    ensures dist[queue[k].0] == Finite(queue[k].1)
    ensures LowerBound(g, s, queue[k].0, queue[k].1)
  {
    var (u, d) := queue[k];
    assert NodeOk(g, s, dist, visited, queue, u);
    forall p | WalkFromTo(g, p, s, u) ensures PathWeight(g, p) >= d {
      if s !in visited {
        assert NodeOk(g, s, dist, visited, queue, s);
        WeightNonNegative(g, p);
      } else {
        var j := ExitEdge(g, p, visited);
        var x, y := p[j-1], p[j];
        PrefixWeight(g, p, j + 1);
        WalkPrefix(g, p, j);
        assert p[..j+1][..j] == p[..j];
        assert Tight(g, dist, x, y);
        assert NodeOk(g, s, dist, visited, queue, x);
        assert NodeOk(g, s, dist, visited, queue, y);
        assert PathWeight(g, p[..j+1]) == PathWeight(g, p[..j]) + g[x][y];
        assert WalkFromTo(g, p[..j], s, x);
      }
    }
  }

  /** Visiting the node of the chosen entry starts its relaxation loop. */
  lemma StartRelaxing(g: Graph, s: Node, dist: map<Node, Dist>, visited: set<Node>, queue: seq<Entry>, k: int)
    requires ValidGraph(g) && Frontier(g, s, dist, visited, queue)
    requires 0 <= k < |queue| && forall i :: 0 <= i < |queue| ==> queue[k].1 <= queue[i].1
    requires queue[k].0 !in visited
    ensures Relaxing(g, s, queue[k].0, queue[k].1, g[queue[k].0].Keys, dist,
                     visited + {queue[k].0}, queue[..k] + queue[k+1..])
  {
    var u := queue[k].0;
    var rest := queue[..k] + queue[k+1..];
    PopIsShortest(g, s, dist, visited, queue, k);
    RemoveBounded(dist, queue, k);
    forall n ensures NodeOk(g, s, dist, visited + {u}, rest, n) {
      assert NodeOk(g, s, dist, visited, queue, n);
      if n != u && n !in visited && dist[n].Finite? {
        RemoveEntry(queue, k, (n, dist[n].value));
      }
    }
    forall x, y | x in visited + {u} && x != u && Edge(g, x, y) ensures Tight(g, dist, x, y) {
      assert x in visited;
    }
  }

  /** A walk to u followed by the road u -> y. */
  lemma WitnessExtend(g: Graph, s: Node, u: Node, du: real, y: Node)
    requires Witnessed(g, s, u, du) && Edge(g, u, y)
    ensures Witnessed(g, s, y, du + g[u][y])
  {
    var p :| WalkFromTo(g, p, s, u) && PathWeight(g, p) == du;
    ExtendWalk(g, p, y);
    assert WalkFromTo(g, p + [y], s, y);
  }

  /** Relaxing a road that improves the neighbour's distance keeps the invariant. */
  lemma RelaxImproving(g: Graph, s: Node, u: Node, du: real, todo: set<Node>,
                       dist: map<Node, Dist>, visited: set<Node>, queue: seq<Entry>, y: Node)
    requires ValidGraph(g) && Relaxing(g, s, u, du, todo, dist, visited, queue)
    requires y in todo && Improves(du + g[u][y], dist[y])
    ensures Relaxing(g, s, u, du, todo - {y}, dist[y := Finite(du + g[u][y])],
                     visited, queue + [(y, du + g[u][y])])
  {
    ImproveWitness(g, s, u, du, dist, visited, queue, y);
    ImproveTentative(g, s, dist, visited, queue, y, du + g[u][y]);
    ImproveTight(g, u, du, todo, dist, visited, y);
  }

  /**
   * A road that improves y's distance extends a walk to u into a cheaper walk
   * to y, so y cannot be settled yet.
   */
  lemma ImproveWitness(g: Graph, s: Node, u: Node, du: real, dist: map<Node, Dist>, visited: set<Node>,
                       queue: seq<Entry>, y: Node)
    requires ValidGraph(g) && Tentative(g, s, dist, visited, queue) && dist[u] == Finite(du)
    requires Edge(g, u, y) && Improves(du + g[u][y], dist[y])
    ensures y !in visited && du + g[u][y] >= 0.0 && Witnessed(g, s, y, du + g[u][y])
  {
    assert NodeOk(g, s, dist, visited, queue, u);
    assert NodeOk(g, s, dist, visited, queue, y);
    WitnessExtend(g, s, u, du, y);
    if y in visited {
      assert false;
    }
  }

  /** Lowering an unvisited node's distance to that of a walk, and queueing it, keeps the shared facts. */
  lemma ImproveTentative(g: Graph, s: Node, dist: map<Node, Dist>, visited: set<Node>, queue: seq<Entry>,
                         y: Node, alt: real)
    requires Tentative(g, s, dist, visited, queue) && y !in visited
    requires alt >= 0.0 && Witnessed(g, s, y, alt) && Improves(alt, dist[y])
    ensures Tentative(g, s, dist[y := Finite(alt)], visited, queue + [(y, alt)])
  {
    var dist' := dist[y := Finite(alt)];
    var queue' := queue + [(y, alt)];
    forall n ensures NodeOk(g, s, dist', visited, queue', n) {
      assert NodeOk(g, s, dist, visited, queue, n);
      if n == y {
        assert queue'[|queue|] == (y, alt);
      } else {
        assert dist'[n] == dist[n];
      }
    }
    forall i | 0 <= i < |queue'|
      ensures queue'[i].0 in dist' && dist'[queue'[i].0].Finite? && dist'[queue'[i].0].value <= queue'[i].1
    {
      if i < |queue| { assert queue'[i] == queue[i]; }
    }
  }

  /** Lowering y's distance to du plus the road u -> y keeps the relaxed roads relaxed and relaxes that one. */
  lemma ImproveTight(g: Graph, u: Node, du: real, todo: set<Node>, dist: map<Node, Dist>, visited: set<Node>, y: Node)
    requires u in g && y in todo && todo <= g[u].Keys && u in visited && y !in visited
    requires u in dist && dist[u] == Finite(du) && y in dist && Improves(du + g[u][y], dist[y])
    requires forall x, z {:trigger Tight(g, dist, x, z)} :: x in visited && x != u && Edge(g, x, z) ==> Tight(g, dist, x, z)
    requires forall z {:trigger Tight(g, dist, u, z)} :: z in g[u] && z !in todo ==> Tight(g, dist, u, z)
    ensures forall x, z {:trigger Tight(g, dist[y := Finite(du + g[u][y])], x, z)} ::
      x in visited && x != u && Edge(g, x, z) ==> Tight(g, dist[y := Finite(du + g[u][y])], x, z)
    ensures forall z {:trigger Tight(g, dist[y := Finite(du + g[u][y])], u, z)} ::
      z in g[u] && z !in todo - {y} ==> Tight(g, dist[y := Finite(du + g[u][y])], u, z)
  {
    var dist' := dist[y := Finite(du + g[u][y])];
    forall x, z | x in visited && x != u && Edge(g, x, z) ensures Tight(g, dist', x, z) {
      assert Tight(g, dist, x, z);
    }
    forall z | z in g[u] && z !in todo - {y} ensures Tight(g, dist', u, z) {
      if z != y { assert Tight(g, dist, u, z); }
    }
  }

  /** Relaxing a road that does not improve the neighbour's distance keeps the invariant. */
  lemma RelaxNotImproving(g: Graph, s: Node, u: Node, du: real, todo: set<Node>,
                          dist: map<Node, Dist>, visited: set<Node>, queue: seq<Entry>, y: Node)
    requires ValidGraph(g) && Relaxing(g, s, u, du, todo, dist, visited, queue)
    requires y in todo && !Improves(du + g[u][y], dist[y])
    ensures Relaxing(g, s, u, du, todo - {y}, dist, visited, queue)
  {
    assert Tight(g, dist, u, y);
  }

  /** Once every road out of u is relaxed, the main loop's invariant holds again. */
  lemma EndRelaxing(g: Graph, s: Node, u: Node, du: real,
                    dist: map<Node, Dist>, visited: set<Node>, queue: seq<Entry>)
    requires Relaxing(g, s, u, du, {}, dist, visited, queue)
    ensures Frontier(g, s, dist, visited, queue)
  {
  }

  /** The state before the first iteration. */
  lemma StartFrontier(g: Graph, s: Node)
    requires ValidGraph(g)
    ensures Frontier(g, s, (map n | n in g :: Infinity)[s := Finite(0.0)], {}, [(s, 0.0)])
  {
    var dist := (map n | n in g :: Infinity)[s := Finite(0.0)];
    var queue := [(s, 0.0)];
    forall n ensures NodeOk(g, s, dist, {}, queue, n) {
      assert n in g;
      if n == s {
        assert WalkFromTo(g, [s], s, s);
        assert queue[0] == (s, 0.0);
      }
    }
  }

  /** An unvisited node with a finite distance is in the queue. */
  lemma QueuedIfFinite(g: Graph, s: Node, dist: map<Node, Dist>, visited: set<Node>, queue: seq<Entry>, n: Node)
    requires Tentative(g, s, dist, visited, queue) && n !in visited && dist[n].Finite?
    ensures (n, dist[n].value) in queue
  {
    assert NodeOk(g, s, dist, visited, queue, n);
  }

  /** With the queue empty, every walk from s ends in a visited node. */
  lemma Exhausted(g: Graph, s: Node, dist: map<Node, Dist>, visited: set<Node>, p: seq<Node>)
    requires Frontier(g, s, dist, visited, []) && Walk(g, p) && p[0] == s
    ensures p[|p|-1] in visited
  {
    assert NodeOk(g, s, dist, visited, [], s);
    if p[|p|-1] !in visited {
      var j := ExitEdge(g, p, visited);
      assert Tight(g, dist, p[j-1], p[j]);
      QueuedIfFinite(g, s, dist, visited, [], p[j]);
      assert false;
    }
  }

  /**
   * When the queue is empty, exactly the reachable nodes are visited and each
   * carries its shortest distance; every other node is still at Infinity.
   */
  lemma Finish(g: Graph, s: Node, dist: map<Node, Dist>, visited: set<Node>, e: Node)
    requires Frontier(g, s, dist, visited, [])
    ensures e in visited <==> Reachable(g, s, e)
    ensures dist[e].Finite? <==> e in visited
    ensures dist[e].Finite? ==> IsShortest(g, s, e, dist[e].value)
  {
    assert NodeOk(g, s, dist, visited, [], e);
    if Reachable(g, s, e) {
      var p :| WalkFromTo(g, p, s, e);
      Exhausted(g, s, dist, visited, p);
    }
  }

  // ---------------------------------------------------------------------------
  // The algorithm

  /**
   * Shortest distance from `start` to `end`, or Infinity when no walk joins
   * them.  `expanded` lists the nodes in the order they were taken off the
   * queue and expanded: each at most once, and exactly the reachable ones.
   */
  method Dijkstra(g: Graph, start: Node, end: Node) returns (d: Dist, ghost expanded: seq<Node>)
    requires ValidGraph(g)
    ensures d.Finite? ==> IsShortest(g, start, end, d.value)
    ensures d.Infinity? <==> !Reachable(g, start, end)
    ensures forall i, j :: 0 <= i < j < |expanded| ==> expanded[i] != expanded[j]
    ensures forall n :: n in expanded <==> Reachable(g, start, n)
  {
    var distances: map<Node, Dist> := map n | n in g :: Infinity;
    distances := distances[start := Finite(0.0)];
    var visited: set<Node> := {};
    var queue: seq<Entry> := [(start, 0.0)];
    expanded := [];
    StartFrontier(g, start);

    while |queue| > 0
      invariant Frontier(g, start, distances, visited, queue)
      invariant forall i, j :: 0 <= i < j < |expanded| ==> expanded[i] != expanded[j]
      invariant forall n :: n in expanded <==> n in visited
      decreases AllNodes - visited, |queue|
    {
      var k := MinEntry(queue);
      var (current, dist) := queue[k];
      if current in visited {
        SkipVisited(g, start, distances, visited, queue, k);
        queue := queue[..k] + queue[k+1..];
        continue;
      }
      StartRelaxing(g, start, distances, visited, queue, k);
      assert current in AllNodes by {
        match current { case C1 => case C2 => case C3 => case L1 => }
      }
      queue := queue[..k] + queue[k+1..];
      visited := visited + {current};
      expanded := expanded + [current];

      var todo := g[current].Keys;
      while todo != {}
        invariant Relaxing(g, start, current, dist, todo, distances, visited, queue)
        decreases todo
      {
        var neighbor :| neighbor in todo;
        var alt := dist + g[current][neighbor];
        if Improves(alt, distances[neighbor]) {
          RelaxImproving(g, start, current, dist, todo, distances, visited, queue, neighbor);
          distances := distances[neighbor := Finite(alt)];
          queue := queue + [(neighbor, alt)];
        } else {
          RelaxNotImproving(g, start, current, dist, todo, distances, visited, queue, neighbor);
        }
        todo := todo - {neighbor};
      }
      EndRelaxing(g, start, current, dist, distances, visited, queue);
    }

    forall n ensures (n in visited <==> Reachable(g, start, n)) {
      Finish(g, start, distances, visited, n);
    }
    Finish(g, start, distances, visited, end);
    d := distances[end];
  }

  /** `dijkstra(start, end)` over the fixed road network. */
  method ShortestDistance(start: Node, end: Node) returns (x: real)
    ensures x == Distance(start, end)
  {
    RoadsValid();
    var d: Dist;
    ghost var expanded: seq<Node>;
    d, expanded := Dijkstra(Roads, start, end);
    RoadsDistance(start, end);
    x := d.value;
  }
}
