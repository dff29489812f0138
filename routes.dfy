/**
 * The route generator: every way to leave the hub L1, call at each pickup
 * center once, and bring the goods back to L1, possibly unloading at L1 in
 * between.  A route is recorded as its legs; the program keeps only each
 * route's cost.
 */
module Routes {
  import opened RoadGraph
  import opened ShortestPath
  import opened Cost

  /** The weight to collect at each pickup center. */
  type Pickups = map<Node, real>

  /** One leg of a route: driving from `from` to `to` with `load` on board. */
  datatype Leg = Leg(from: Node, to: Node, load: real)

  /** What a leg costs: its shortest road distance at the rate for its load. */
  function LegCost(l: Leg): real {
    GetCost(Distance(l.from, l.to), l.load)
  }

  /** A route's cost, summed leg by leg in driving order. */
  function RouteCost(legs: seq<Leg>): real
    decreases |legs|
  {
    if legs == [] then 0.0 else RouteCost(legs[..|legs|-1]) + LegCost(legs[|legs|-1])
  }

  /** The costs of a list of routes, in the same order. */
  function Costs(rs: seq<seq<Leg>>): seq<real> {
    seq(|rs|, i requires 0 <= i < |rs| => RouteCost(rs[i]))
  }

  lemma CostsAppend(a: seq<seq<Leg>>, b: seq<seq<Leg>>)
    ensures Costs(a + b) == Costs(a) + Costs(b)
  {
    forall i | 0 <= i < |a + b| ensures Costs(a + b)[i] == (Costs(a) + Costs(b))[i] {
      if i < |a| {
        assert (a + b)[i] == a[i];
      } else {
        assert (a + b)[i] == b[i - |a|];
      }
    }
  }

  /** No route costs less than nothing: distances and rates are non-negative. */
  lemma {:induction false} RouteCostNonNegative(legs: seq<Leg>)
    ensures RouteCost(legs) >= 0.0
    decreases |legs|
  {
    if legs != [] {
      RouteCostNonNegative(legs[..|legs|-1]);
      var l := legs[|legs|-1];
      assert Distance(l.from, l.to) >= 0.0 by {
        match (l.from, l.to)
        case _ =>
      }
      CostBounds(Distance(l.from, l.to), l.load);
    }
  }

  /** Appending the costs of a, then of b, appends the costs of a + b. */
  lemma Accumulate(acc: seq<real>, a: seq<seq<Leg>>, b: seq<seq<Leg>>)
    ensures acc + Costs(a + b) == (acc + Costs(a)) + Costs(b)
  {
    CostsAppend(a, b);
  }

  /**
   * `Object.keys(pickups)`: the pickup centers in the order the per-center
   * totals create them.
   */
  function PickupOrder(p: Pickups): seq<Node> {
    // The L1 term never contributes for real pickups; it makes PickupOrderKeys hold for every map.
    IfPickup(p, C1) + IfPickup(p, C2) + IfPickup(p, C3) + IfPickup(p, L1)
  }

  /** n itself if it is a pickup center, otherwise nothing. */
  function IfPickup(p: Pickups, n: Node): seq<Node> {
    if n in p then [n] else []
  }

  /** The pickup order lists each pickup center exactly once, and nothing else. */
  lemma PickupOrderKeys(p: Pickups)
    ensures forall n :: n in PickupOrder(p) <==> n in p
    ensures forall n :: multiset(PickupOrder(p))[n] == if n in p then 1 else 0
  {
    forall n ensures multiset(PickupOrder(p))[n] == if n in p then 1 else 0 {
      PickupOrderCount(p, n);
    }
  }

  lemma PickupOrderCount(p: Pickups, n: Node)
    ensures multiset(PickupOrder(p))[n] == if n in p then 1 else 0
  {
    var a, b, c, d := IfPickup(p, C1), IfPickup(p, C2), IfPickup(p, C3), IfPickup(p, L1);
    assert multiset(a + b + c + d)[n] == multiset(a)[n] + multiset(b)[n] + multiset(c)[n] + multiset(d)[n];
    IfPickupCount(p, C1, n);
    IfPickupCount(p, C2, n);
    IfPickupCount(p, C3, n);
    IfPickupCount(p, L1, n);
  }

  lemma IfPickupCount(p: Pickups, c: Node, n: Node)
    ensures multiset(IfPickup(p, c))[n] == if n == c && c in p then 1 else 0
  {
  }

  lemma PickupOrderHas(p: Pickups, n: Node)
    ensures n in PickupOrder(p) <==> n in p
  {
    PickupOrderCount(p, n);
  }

  /** The sequence with every occurrence of x dropped, as the seeding step builds `remaining`. */
  function RemoveAll(s: seq<Node>, x: Node): (r: seq<Node>)
    ensures forall n :: n in r ==> n in s
    decreases |s|
  {
    if s == [] then []
    else (if s[0] == x then [] else [s[0]]) + RemoveAll(s[1..], x)
  }

  /** RemoveAll keeps every element other than x, as often as it occurs. */
  lemma {:induction false} RemoveAllCount(s: seq<Node>, x: Node, n: Node)
    ensures multiset(RemoveAll(s, x))[n] == if n == x then 0 else multiset(s)[n]
    decreases |s|
  {
    if s != [] {
      RemoveAllCount(s[1..], x, n);
      assert s == [s[0]] + s[1..];
      assert multiset(s)[n] == multiset([s[0]])[n] + multiset(s[1..])[n];
      var head := if s[0] == x then [] else [s[0]];
      assert multiset(RemoveAll(s, x))[n] == multiset(head)[n] + multiset(RemoveAll(s[1..], x))[n];
    }
  }

  /** The sequence with the element at index i dropped, as the pickup branch builds `remaining`. */
  function Without(s: seq<Node>, i: nat): (r: seq<Node>)
    requires i < |s|
    ensures |r| == |s| - 1
    ensures forall n :: n in r ==> n in s
  {
    s[..i] + s[i+1..]
  }

  /** Dropping index i removes exactly one copy of s[i]. */
  lemma WithoutContents(s: seq<Node>, i: nat)
    requires i < |s|
    ensures multiset(Without(s, i)) + multiset{s[i]} == multiset(s)
  {
    assert s == s[..i] + [s[i]] + s[i+1..];
  }

  // ---------------------------------------------------------------------------
  // The routes `dfs` records

  /** The weight waiting at n, or nothing if n is not a pickup center. */
  function Weight(p: Pickups, n: Node): real {
    if n in p then p[n] else 0.0
  }

  /**
   * The routes `dfs(path, remaining, current, carried, …)` records: stop if
   * every center is collected and the vehicle is back at L1; otherwise first
   * the routes that unload at L1 now (when away from L1 with a load), then
   * those that drive to each remaining center in turn.
   */
  function Explore(p: Pickups, remaining: seq<Node>, current: Node, carried: real, path: seq<Leg>): seq<seq<Leg>>
    decreases |remaining|, (if current != L1 then 1 else 0)
  {
    if |remaining| == 0 && current == L1 then [path]
    else
      (if current != L1 && carried > 0.0
       then Explore(p, remaining, L1, 0.0, path + [Leg(current, L1, carried)])
       else [])
      + PickEach(p, remaining, current, carried, path, 0)
  }

  /** The routes that continue to the i-th remaining center, then to each later one. */
  function PickEach(p: Pickups, remaining: seq<Node>, current: Node, carried: real, path: seq<Leg>, i: nat): seq<seq<Leg>>
    decreases |remaining|, (if current != L1 then 1 else 0), |remaining| - i
  {
    if i >= |remaining| then []
    else
      Explore(p, Without(remaining, i), remaining[i], carried + Weight(p, remaining[i]),
              path + [Leg(current, remaining[i], carried)])
      + PickEach(p, remaining, current, carried, path, i + 1)
  }

  /** The routes seeded by driving empty from L1 to the j-th pickup center, then to each later one. */
  function SeedFrom(p: Pickups, keys: seq<Node>, j: nat): seq<seq<Leg>>
    decreases |keys| - j
  {
    if j >= |keys| then []
    else
      Explore(p, RemoveAll(keys, keys[j]), keys[j], Weight(p, keys[j]), [Leg(L1, keys[j], 0.0)])
      + SeedFrom(p, keys, j + 1)
  }

  /** Every route `generateRoutes(pickups)` records, in the order it records them. */
  function AllRoutes(p: Pickups): seq<seq<Leg>> {
    SeedFrom(p, PickupOrder(p), 0)
  }

  // ---------------------------------------------------------------------------
  // The program

  /**
   * `dfs`: appends to `routes` the cost of every route that extends `path`,
   * in the order `Explore` lists them.  `costSoFar` is the cost of `path`.
   */
  method Dfs(p: Pickups, remaining: seq<Node>, current: Node, carried: real, costSoFar: real,
             ghost path: seq<Leg>, routes: seq<real>) returns (routes': seq<real>)
    requires forall n :: n in remaining ==> n in p
    requires costSoFar == RouteCost(path)
    ensures routes' == routes + Costs(Explore(p, remaining, current, carried, path))
    decreases |remaining|, (if current != L1 then 1 else 0)
  {
    if |remaining| == 0 && current == L1 {
      routes' := routes + [costSoFar];
      return;
    }
    routes' := routes;
    if current != L1 && carried > 0.0 {
      var cost := LegPrice(current, L1, carried);
      ghost var path' := path + [Leg(current, L1, carried)];
      RouteCostStep(path, Leg(current, L1, carried));
      routes' := Dfs(p, remaining, L1, 0.0, costSoFar + cost, path', routes');
    }
    StartPicks(p, remaining, current, carried, path, routes, routes');
    for i := 0 to |remaining|
      invariant routes' + Costs(PickEach(p, remaining, current, carried, path, i))
             == routes + Costs(Explore(p, remaining, current, carried, path))
    {
      var next := remaining[i];
      var cost := LegPrice(current, next, carried);
      var nextWeight := p[next];
      ghost var path' := path + [Leg(current, next, carried)];
      RouteCostStep(path, Leg(current, next, carried));
      ghost var before := routes';
      routes' := Dfs(p, Without(remaining, i), next, carried + nextWeight, costSoFar + cost, path', routes');
      PickStep(p, remaining, current, carried, path, i, before, routes',
               routes + Costs(Explore(p, remaining, current, carried, path)));
    }
  }

  /** Pricing one leg with the program's two calls: the shortest distance, then its cost at the load. */
  method LegPrice(from: Node, to: Node, load: real) returns (cost: real)
    ensures cost == LegCost(Leg(from, to, load))
  {
    var distance := ShortestDistance(from, to);
    cost := GetCost(distance, load);
  }

  /** A route's cost grows by each leg's cost as the leg is driven. */
  lemma RouteCostStep(path: seq<Leg>, l: Leg)
    ensures RouteCost(path + [l]) == RouteCost(path) + LegCost(l)
  {
    assert (path + [l])[..|path|] == path;
  }

  /** After the unloading option, what is left to record are the routes through each remaining center. */
  lemma StartPicks(p: Pickups, remaining: seq<Node>, current: Node, carried: real, path: seq<Leg>,
                   acc: seq<real>, acc': seq<real>)
    requires !(|remaining| == 0 && current == L1)
    requires current != L1 && carried > 0.0 ==>
      acc' == acc + Costs(Explore(p, remaining, L1, 0.0, path + [Leg(current, L1, carried)]))
    requires !(current != L1 && carried > 0.0) ==> acc' == acc
    ensures acc' + Costs(PickEach(p, remaining, current, carried, path, 0))
         == acc + Costs(Explore(p, remaining, current, carried, path))
  {
    var unload := if current != L1 && carried > 0.0
                  then Explore(p, remaining, L1, 0.0, path + [Leg(current, L1, carried)]) else [];
    assert Explore(p, remaining, current, carried, path) == unload + PickEach(p, remaining, current, carried, path, 0);
    Accumulate(acc, unload, PickEach(p, remaining, current, carried, path, 0));
    if unload == [] {
      assert acc + Costs(unload) == acc;
    }
  }

  /** One turn of the loop over the remaining centers in `dfs`. */
  lemma PickStep(p: Pickups, remaining: seq<Node>, current: Node, carried: real, path: seq<Leg>, i: nat,
                 acc: seq<real>, acc': seq<real>, target: seq<real>)
    requires i < |remaining|
    requires acc + Costs(PickEach(p, remaining, current, carried, path, i)) == target
    requires acc' == acc + Costs(Explore(p, Without(remaining, i), remaining[i], carried + Weight(p, remaining[i]),
                                         path + [Leg(current, remaining[i], carried)]))
    ensures acc' + Costs(PickEach(p, remaining, current, carried, path, i + 1)) == target
  {
    Accumulate(acc, Explore(p, Without(remaining, i), remaining[i], carried + Weight(p, remaining[i]),
                            path + [Leg(current, remaining[i], carried)]),
               PickEach(p, remaining, current, carried, path, i + 1));
  }

  /** `generateRoutes(pickups)`: the cost of every route, in the order they are found. */
  method GenerateRoutes(pickups: Pickups) returns (routes: seq<real>)
    ensures routes == Costs(AllRoutes(pickups))
  {
    routes := [];
    var keys := PickupOrder(pickups);
    PickupOrderKeys(pickups);
    for j := 0 to |keys|
      invariant routes + Costs(SeedFrom(pickups, keys, j)) == Costs(SeedFrom(pickups, keys, 0))
    {
      var center := keys[j];
      var costToCenter := LegPrice(L1, center, 0.0);
      var weight := pickups[center];
      RouteCostStep([], Leg(L1, center, 0.0));
      assert [] + [Leg(L1, center, 0.0)] == [Leg(L1, center, 0.0)];
      ghost var before := routes;
      routes := Dfs(pickups, RemoveAll(keys, center), center, weight, costToCenter, [Leg(L1, center, 0.0)], routes);
      SeedStep(pickups, keys, j, before, routes, Costs(SeedFrom(pickups, keys, 0)));
    }
  }

  /** One turn of the seeding loop in `generateRoutes`. */
  lemma SeedStep(p: Pickups, keys: seq<Node>, j: nat, acc: seq<real>, acc': seq<real>, target: seq<real>)
    requires j < |keys|
    requires acc + Costs(SeedFrom(p, keys, j)) == target
    requires acc' == acc + Costs(Explore(p, RemoveAll(keys, keys[j]), keys[j], Weight(p, keys[j]), [Leg(L1, keys[j], 0.0)]))
    ensures acc' + Costs(SeedFrom(p, keys, j + 1)) == target
  {
    Accumulate(acc, Explore(p, RemoveAll(keys, keys[j]), keys[j], Weight(p, keys[j]), [Leg(L1, keys[j], 0.0)]),
               SeedFrom(p, keys, j + 1));
  }
}
