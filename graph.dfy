/**
 * The road network of the delivery service: three fulfillment centers C1, C2,
 * C3 and the hub L1, joined by undirected weighted roads.  Besides the fixed
 * network this module defines walks, their weights and what it means for a
 * number to be the shortest distance between two nodes, for any graph.
 */
module RoadGraph {

  datatype Node = C1 | C2 | C3 | L1

  const AllNodes: set<Node> := {C1, C2, C3, L1}

  /** Adjacency map: node -> (neighbour -> road length). */
  type Graph = map<Node, map<Node, real>>

  /** The fixed road network. */
  const Roads: Graph := map[
    C1 := map[C2 := 4.0, L1 := 3.0],
    C2 := map[C1 := 4.0, C3 := 3.0, L1 := 2.5],
    C3 := map[C2 := 3.0, L1 := 2.0],
    L1 := map[C1 := 3.0, C2 := 2.5, C3 := 2.0]
  ]

  /** Every node has an adjacency entry and every road has positive length. */
  ghost predicate ValidGraph(g: Graph) {
    (forall n: Node :: n in g) &&
    (forall a, b :: a in g && b in g[a] ==> g[a][b] > 0.0)
  }

  /** Roads can be driven both ways at the same length. */
  ghost predicate Symmetric(g: Graph) {
    forall a, b :: a in g && b in g[a] ==> b in g && a in g[b] && g[b][a] == g[a][b]
  }

  predicate Edge(g: Graph, a: Node, b: Node) {
    a in g && b in g[a]
  }

  /** A non-empty node sequence in which consecutive nodes are joined by a road. */
  ghost predicate Walk(g: Graph, p: seq<Node>) {
    |p| >= 1 && forall i :: 0 < i < |p| ==> Edge(g, p[i-1], p[i])
  }

  ghost predicate WalkFromTo(g: Graph, p: seq<Node>, s: Node, e: Node) {
    Walk(g, p) && p[0] == s && p[|p|-1] == e
  }

  /** Sum of the road lengths along a walk. */
  ghost function PathWeight(g: Graph, p: seq<Node>): real
    requires Walk(g, p)
    decreases |p|
  {
    if |p| == 1 then 0.0
    else
      WalkPrefix(g, p, |p| - 1);
      assert Edge(g, p[|p|-2], p[|p|-1]);
      PathWeight(g, p[..|p|-1]) + g[p[|p|-2]][p[|p|-1]]
  }

  lemma WalkPrefix(g: Graph, p: seq<Node>, j: int)
    requires Walk(g, p) && 1 <= j <= |p|
    ensures Walk(g, p[..j])
  {
    var q := p[..j];
    forall i | 0 < i < |q| ensures Edge(g, q[i-1], q[i]) {
      assert Edge(g, p[i-1], p[i]);
    }
  }

  ghost predicate Reachable(g: Graph, s: Node, e: Node) {
    exists p :: WalkFromTo(g, p, s, e)
  }

  /** No walk from s to e is shorter than x. */
  ghost predicate LowerBound(g: Graph, s: Node, e: Node, x: real) {
    forall p :: WalkFromTo(g, p, s, e) ==> PathWeight(g, p) >= x
  }

  /** x is the length of a shortest walk from s to e. */
  ghost predicate IsShortest(g: Graph, s: Node, e: Node, x: real) {
    (exists p :: WalkFromTo(g, p, s, e) && PathWeight(g, p) == x) && LowerBound(g, s, e, x)
  }

  // ---------------------------------------------------------------------------
  // Walk lemmas

  lemma {:induction false} WeightNonNegative(g: Graph, p: seq<Node>)
    requires ValidGraph(g) && Walk(g, p)
    ensures PathWeight(g, p) >= 0.0
    decreases |p|
  {
    if |p| > 1 {
      WeightNonNegative(g, p[..|p|-1]);
      assert Edge(g, p[|p|-2], p[|p|-1]);
    }
  }

  /** Extending a walk by one road adds that road's length. */
  lemma ExtendWalk(g: Graph, p: seq<Node>, n: Node)
    requires Walk(g, p) && Edge(g, p[|p|-1], n)
    ensures Walk(g, p + [n])
    ensures PathWeight(g, p + [n]) == PathWeight(g, p) + g[p[|p|-1]][n]
  {
    var q := p + [n];
    forall i | 0 < i < |q| ensures Edge(g, q[i-1], q[i]) {
      if i < |p| { assert Edge(g, p[i-1], p[i]); }
    }
    assert q[..|q|-1] == p;
  }

  /** Every prefix of a walk is a walk, and no heavier than the walk. */
  lemma {:induction false} PrefixWeight(g: Graph, p: seq<Node>, j: int)
    requires ValidGraph(g) && Walk(g, p) && 1 <= j <= |p|
    ensures Walk(g, p[..j])
    ensures PathWeight(g, p[..j]) <= PathWeight(g, p)
    decreases |p| - j
  {
    if j == |p| {
      assert p[..j] == p;
    } else {
      var q := p[..|p|-1];
      WalkPrefix(g, p, |p| - 1);
      assert Edge(g, p[|p|-2], p[|p|-1]);
      assert g[p[|p|-2]][p[|p|-1]] > 0.0;
      PrefixWeight(g, q, j);
      assert q[..j] == p[..j];
    }
  }

  /** A walk that starts inside S and ends outside S crosses out of S on some road. */
  lemma {:induction false} ExitEdge(g: Graph, p: seq<Node>, S: set<Node>) returns (j: int)
    requires Walk(g, p) && p[0] in S && p[|p|-1] !in S
    ensures 0 < j < |p| && p[j-1] in S && p[j] !in S
    decreases |p|
  {
    var k := |p| - 1;
    while p[k-1] !in S
      invariant 0 < k < |p| && p[k] !in S
      decreases k
    {
      k := k - 1;
    }
    j := k;
  }

  /** Two shortest distances between the same nodes agree. */
  lemma ShortestUnique(g: Graph, s: Node, e: Node, x: real, y: real)
    requires IsShortest(g, s, e, x) && IsShortest(g, s, e, y)
    ensures x == y
  {
    var p :| WalkFromTo(g, p, s, e) && PathWeight(g, p) == x;
    var q :| WalkFromTo(g, q, s, e) && PathWeight(g, q) == y;
  }

  /** The distance from a node to itself is 0. */
  lemma ShortestToSelf(g: Graph, s: Node, x: real)
    requires ValidGraph(g) && IsShortest(g, s, s, x)
    ensures x == 0.0
  {
    assert WalkFromTo(g, [s], s, s);
    var p :| WalkFromTo(g, p, s, s) && PathWeight(g, p) == x;
    WeightNonNegative(g, p);
  }

  /**
   * A potential T with T(s) <= 0 that no road can shortcut
   * (T(b) <= T(a) + length(a, b)) bounds every walk from s from below.
   */
  lemma {:induction false} PotentialBound(g: Graph, s: Node, T: Node -> real, p: seq<Node>)
    requires Walk(g, p) && p[0] == s && T(s) <= 0.0
    requires forall a, b :: Edge(g, a, b) ==> T(b) <= T(a) + g[a][b]
    ensures PathWeight(g, p) >= T(p[|p|-1])
    decreases |p|
  {
    if |p| > 1 {
      var q := p[..|p|-1];
      WalkPrefix(g, p, |p| - 1);
      PotentialBound(g, s, T, q);
      assert Edge(g, p[|p|-2], p[|p|-1]);
    }
  }

  // ---------------------------------------------------------------------------
  // Reversal: on a symmetric graph distances do not depend on direction.

  function Reverse(p: seq<Node>): (r: seq<Node>)
    ensures |r| == |p|
    ensures forall i :: 0 <= i < |p| ==> r[i] == p[|p| - 1 - i]
  {
    if p == [] then [] else Reverse(p[1..]) + [p[0]]
  }

  /** The weight of a walk computed from its first road instead of its last. */
  lemma {:induction false} WeightFromFront(g: Graph, a: Node, q: seq<Node>)
    requires Walk(g, [a] + q) && |q| >= 1
    ensures Walk(g, q) && Edge(g, a, q[0])
    ensures PathWeight(g, [a] + q) == g[a][q[0]] + PathWeight(g, q)
    decreases |q|
  {
    var p := [a] + q;
    assert Edge(g, p[0], p[1]);
    assert Walk(g, q) by {
      forall i | 0 < i < |q| ensures Edge(g, q[i-1], q[i]) {
        assert Edge(g, p[i], p[i+1]);
      }
    }
    if |q| > 1 {
      var q' := q[..|q|-1];
      assert p[..|p|-1] == [a] + q';
      WeightFromFront(g, a, q');
    }
  }

  lemma {:induction false} ReverseWalk(g: Graph, p: seq<Node>)
    requires Symmetric(g) && Walk(g, p)
    ensures Walk(g, Reverse(p))
    ensures PathWeight(g, Reverse(p)) == PathWeight(g, p)
    decreases |p|
  {
    if |p| > 1 {
      var q := p[1..];
      assert p == [p[0]] + q;
      WeightFromFront(g, p[0], q);
      ReverseWalk(g, q);
      var rq := Reverse(q);
      assert rq[|rq|-1] == q[0];
      assert Edge(g, q[0], p[0]);
      ExtendWalk(g, rq, p[0]);
      assert Reverse(p) == rq + [p[0]];
    }
  }

  /** On a symmetric graph the distance from a to b is also the distance from b to a. */
  lemma ShortestSymmetric(g: Graph, a: Node, b: Node, x: real)
    requires Symmetric(g) && IsShortest(g, a, b, x)
    ensures IsShortest(g, b, a, x)
  {
    var p :| WalkFromTo(g, p, a, b) && PathWeight(g, p) == x;
    ReverseWalk(g, p);
    assert WalkFromTo(g, Reverse(p), b, a);
    forall q | WalkFromTo(g, q, b, a) ensures PathWeight(g, q) >= x {
      ReverseWalk(g, q);
      assert WalkFromTo(g, Reverse(q), a, b);
    }
  }

  // ---------------------------------------------------------------------------
  // The fixed road network

  lemma RoadsValid()
    ensures ValidGraph(Roads) && Symmetric(Roads)
  {
    forall n: Node ensures n in Roads {
      match n
      case C1 => case C2 => case C3 => case L1 =>
    }
  }

  /** Shortest road distances in the fixed network. */
  function Distance(a: Node, b: Node): real {
    match (a, b)
    case (C1, C1) => 0.0  case (C1, C2) => 4.0  case (C1, C3) => 5.0  case (C1, L1) => 3.0
    case (C2, C1) => 4.0  case (C2, C2) => 0.0  case (C2, C3) => 3.0  case (C2, L1) => 2.5
    case (C3, C1) => 5.0  case (C3, C2) => 3.0  case (C3, C3) => 0.0  case (C3, L1) => 2.0
    case (L1, C1) => 3.0  case (L1, C2) => 2.5  case (L1, C3) => 2.0  case (L1, L1) => 0.0
  }

  /** A walk realising Distance(a, b). */
  function ShortestWalk(a: Node, b: Node): seq<Node> {
    if a == b then [a]
    else if (a == C1 && b == C3) || (a == C3 && b == C1) then [a, L1, b]
    else [a, b]
  }

  lemma ShortestWalkRealises(a: Node, b: Node)
    ensures WalkFromTo(Roads, ShortestWalk(a, b), a, b)
    ensures PathWeight(Roads, ShortestWalk(a, b)) == Distance(a, b)
  {
    var p := ShortestWalk(a, b);
    assert PathWeight(Roads, [a]) == 0.0;
    if |p| == 3 {
      assert p[..2] == [a, L1];
      assert [a, L1][..1] == [a];
      assert PathWeight(Roads, [a, L1]) == Roads[a][L1];
      assert PathWeight(Roads, p) == Roads[a][L1] + Roads[L1][b];
    } else if |p| == 2 {
      assert p[..1] == [a];
      assert PathWeight(Roads, p) == Roads[a][b];
    }
  }

  /** Distance(a, b) is the length of a shortest walk in the road network. */
  lemma DistanceIsShortest(a: Node, b: Node)
    ensures IsShortest(Roads, a, b, Distance(a, b))
  {
    ShortestWalkRealises(a, b);
    var T := n => Distance(a, n);
    forall x, y | Edge(Roads, x, y) ensures T(y) <= T(x) + Roads[x][y] {
    }
    forall p | WalkFromTo(Roads, p, a, b) ensures PathWeight(Roads, p) >= Distance(a, b) {
      PotentialBound(Roads, a, T, p);
    }
  }

  /** In the road network every node reaches every other, and Distance is the only shortest distance. */
  lemma RoadsDistance(a: Node, b: Node)
    ensures Reachable(Roads, a, b)
    ensures forall x :: IsShortest(Roads, a, b, x) ==> x == Distance(a, b)
  {
    DistanceIsShortest(a, b);
    forall x | IsShortest(Roads, a, b, x) ensures x == Distance(a, b) {
      ShortestUnique(Roads, a, b, x, Distance(a, b));
    }
  }

  /** C1 reaches C3 through the hub (3 + 2) rather than through C2 (4 + 3). */
  lemma C1ToC3ViaHub()
    ensures IsShortest(Roads, C1, C3, 5.0)
    ensures PathWeight(Roads, [C1, C2, C3]) == 7.0
  {
    DistanceIsShortest(C1, C3);
    assert [C1, C2, C3][..2] == [C1, C2];
    assert [C1, C2][..1] == [C1];
  }
}
