/**
 * The decision logic of the `/calculate-cost` endpoint: from an order to
 * either the minimum delivery cost or one of the two error answers.
 */
module Handler {
  import opened RoadGraph
  import opened Cost
  import opened Orders
  import opened Routes
  import opened Tours

  /** The endpoint's answers: the minimum cost, status 400, or status 500. */
  datatype Response = Success(minimumCost: real) | NoValidProducts | NoRoute

  /** The minimum of a non-empty list of costs (`Math.min`): one of them, and no larger than any. */
  function MinimumOf(costs: seq<real>): (m: real)
    requires |costs| > 0
    ensures m in costs
    ensures forall x :: x in costs ==> m <= x
    decreases |costs|
  {
    if |costs| == 1 then costs[0]
    else
      var rest := MinimumOf(costs[1..]);
      assert forall x :: x in costs ==> x == costs[0] || x in costs[1..];
      if costs[0] <= rest then costs[0] else rest
  }

  /** What the endpoint answers for an order. */
  function Respond(order: Order): Response {
    var pickups := Demand(order);
    if |pickups| == 0 then NoValidProducts
    else
      var costs := Costs(AllRoutes(pickups));
      if |costs| == 0 then NoRoute else Success(MinimumOf(costs))
  }

  /**
   * The endpoint: total the order per center, answer "no valid products"
   * if nothing is to be collected, otherwise generate every route and answer
   * with the cheapest.
   */
  method CalculateCost(order: Order) returns (r: Response)
    ensures r == Respond(order)
  {
    var pickups := TotalWeightPerCenter(order);
    if |pickups| == 0 {
      return NoValidProducts;
    }
    var routes := GenerateRoutes(pickups);
    if |routes| == 0 {
      return NoRoute;
    }
    r := Success(MinimumOf(routes));
  }

  // ---------------------------------------------------------------------------
  // Properties

  /** The "could not find a valid delivery path" answer is never given. */
  lemma NeverNoRoute(order: Order)
    ensures Respond(order) != NoRoute
  {
    var pickups := Demand(order);
    if |pickups| != 0 {
      DemandShape(order);
      AllRoutesNonEmpty(pickups);
    }
  }

  /** The smallest route cost is the cost of a tour, no tour is cheaper, and it is not negative. */
  lemma MinimumIsCheapestTour(p: Pickups)
    requires L1 !in p && |Costs(AllRoutes(p))| > 0
    ensures exists r :: ValidRoute(p, r) && RouteCost(r) == MinimumOf(Costs(AllRoutes(p)))
    ensures forall r :: ValidRoute(p, r) ==> MinimumOf(Costs(AllRoutes(p))) <= RouteCost(r)
    ensures MinimumOf(Costs(AllRoutes(p))) >= 0.0
  {
    var routes := AllRoutes(p);
    var costs := Costs(routes);
    var m := MinimumOf(costs);
    var i :| 0 <= i < |costs| && costs[i] == m;
    AllRoutesSound(p, routes[i]);
    RouteCostNonNegative(routes[i]);
    forall r | ValidRoute(p, r) ensures m <= RouteCost(r) {
      AllRoutesComplete(p, r);
      var j :| 0 <= j < |routes| && routes[j] == r;
      assert costs[j] in costs;
    }
  }

  /**
   * The endpoint answers with the cost of a tour collecting everything the
   * order asks for, and no such tour is cheaper.
   */
  lemma SuccessIsCheapestTour(order: Order)
    requires Respond(order).Success?
    ensures exists r :: ValidRoute(Demand(order), r) && RouteCost(r) == Respond(order).minimumCost
    ensures forall r :: ValidRoute(Demand(order), r) ==> Respond(order).minimumCost <= RouteCost(r)
    ensures Respond(order).minimumCost >= 0.0
  {
    DemandShape(order);
    MinimumIsCheapestTour(Demand(order));
  }

  /** Every answer is either "no valid products" or a cost; which one depends only on the pickups. */
  lemma ResponseCases(order: Order)
    ensures Respond(order) == NoValidProducts <==> Demand(order) == map[]
    ensures Respond(order).Success? <==> Demand(order) != map[]
  {
    NeverNoRoute(order);
  }

  // ---------------------------------------------------------------------------
  // Examples

  /** Three units of a product at C1: drive out empty (3 x 10), bring them back light (3 x 10). */
  lemma LightOrder()
    ensures Respond([("A", 3.0)]) == Success(60.0)
  {
    ExampleDemand(3.0);
    SingleCenterOrder([("A", 3.0)], C1, 3.0);
  }

  /** Six units cost less than three: above the threshold the rate drops to 8 (30 + 3 x 8). */
  lemma HeavyOrder()
    ensures Respond([("A", 6.0)]) == Success(54.0)
  {
    ExampleDemand(6.0);
    SingleCenterOrder([("A", 6.0)], C1, 6.0);
  }

  /**
   * An order whose pickups are all at one center x, with total weight w, has
   * a single tour: out from L1 empty, back with w on board.
   */
  lemma SingleCenterOrder(order: Order, x: Node, w: real)
    requires Demand(order) == map[x := w]
    ensures Respond(order) == Success(GetCost(Distance(L1, x), 0.0) + GetCost(Distance(x, L1), w))
  {
    DemandShape(order);
    assert x in Demand(order);
    var tour := [Leg(L1, x, 0.0), Leg(x, L1, w)];
    SingleCenterRoutes(x, w);
    assert tour[..1] == [Leg(L1, x, 0.0)] && tour[..1][..0] == [];
    assert RouteCost(tour[..1][..0]) == 0.0;
    assert RouteCost(tour[..1]) == LegCost(Leg(L1, x, 0.0));
    assert RouteCost(tour) == LegCost(Leg(L1, x, 0.0)) + LegCost(Leg(x, L1, w));
    assert Costs([tour]) == [RouteCost(tour)];
    assert |map[x := w]| == 1;
  }

  lemma ExampleDemand(q: real)
    requires q > 0.0
    ensures Demand([("A", q)]) == map[C1 := q]
  {
    CenterTotalSingle(("A", q), C1);
    CenterTotalSingle(("A", q), C2);
    CenterTotalSingle(("A", q), C3);
  }

  /** The one tour for a single pickup at a center x: out empty, back loaded. */
  lemma SingleCenterRoutes(x: Node, w: real)
    requires x != L1 && w > 0.0
    ensures AllRoutes(map[x := w]) == [[Leg(L1, x, 0.0), Leg(x, L1, w)]]
  {
    var p := map[x := w];
    assert PickupOrder(p) == [x] by {
      match x {
        case C1 =>
        case C2 =>
        case C3 =>
      }
    }
    var start := [Leg(L1, x, 0.0)];
    var tour := start + [Leg(x, L1, w)];
    assert RemoveAll([x], x) == [];
    assert Explore(p, [], L1, 0.0, tour) == [tour];
    assert PickEach(p, [], x, w, start, 0) == [];
    assert Explore(p, [], x, w, start) == [tour];
    assert SeedFrom(p, [x], 1) == [];
    assert AllRoutes(p) == SeedFrom(p, [x], 0);
    assert SeedFrom(p, [x], 0) == [tour] + [];
    assert tour == [Leg(L1, x, 0.0), Leg(x, L1, w)];
  }

  /** Two products stocked at C2 make one pickup of 3 there: out empty (2.5 x 10), back light (2.5 x 10). */
  lemma TwoProductsOneCenter()
    ensures Respond([("D", 1.0), ("E", 2.0)]) == Success(50.0)
  {
    var order := [("D", 1.0), ("E", 2.0)];
    CenterTotalAppend([("D", 1.0)], [("E", 2.0)], C1);
    CenterTotalAppend([("D", 1.0)], [("E", 2.0)], C2);
    CenterTotalAppend([("D", 1.0)], [("E", 2.0)], C3);
    CenterTotalSingle(("D", 1.0), C1);
    CenterTotalSingle(("D", 1.0), C2);
    CenterTotalSingle(("D", 1.0), C3);
    CenterTotalSingle(("E", 2.0), C1);
    CenterTotalSingle(("E", 2.0), C2);
    CenterTotalSingle(("E", 2.0), C3);
    assert Demand(order) == map[C2 := 3.0];
    SingleCenterOrder(order, C2, 3.0);
  }

  /** An order naming only products no center stocks has no valid products. */
  lemma UnknownOnly()
    ensures Respond([("Z", 4.0)]) == NoValidProducts
  {
    CenterTotalSingle(("Z", 4.0), C1);
    CenterTotalSingle(("Z", 4.0), C2);
    CenterTotalSingle(("Z", 4.0), C3);
    assert Demand([("Z", 4.0)]) == map[];
  }
}
