# Route-cost engine of the delivery API, in Dafny

The service prices one delivery order. An order names products and quantities. Each product is stocked at one of three fulfillment centers, C1, C2 or C3. A vehicle starts at the hub L1 and must collect everything. It may drive back to L1 to unload between pickups, and it must end at L1 with the goods. Every leg costs the shortest road distance times a rate that depends on the load on board: 10 per unit of distance up to a load of 5, and 8 above it. The service tries every possible tour and answers with the cheapest cost. It gives one error when no center has a positive total, and a second error when no tour is found.

The model is split into these modules:

- `RoadGraph` (`graph.dfy`)
  - The four-node road network.
  - Walks and their weights, and what it means for a number to be the shortest distance.
  - The table of shortest distances, with proofs that each entry is shortest.
- `ShortestPath` (`dijkstra.dfy`)
  - Dijkstra's algorithm as an imperative loop, with a distance map, a visited set and a queue.
  - It is proved correct for any graph with positive roads: finite results are shortest, Infinity means unreachable, and each node is expanded once.
- `Cost` (`cost.dfy`): the load-tiered price of a leg.
- `Orders` (`orders.dfy`)
  - The product-to-center map.
  - The loop that totals an order per center and keeps the positive totals.
  - Lemmas about these totals.
- `Routes` (`routes.dfy`)
  - The backtracking route generator as recursive methods, with the seeding loop.
  - They are proved against `Explore`, a function that lists the routes in the order the search records them.
- `Tours` (`tours.dfy`)
  - What a tour is, defined independently of the search: `ValidRoute`.
  - A proof that the generator records exactly the tours.
  - A proof that it records at least one whenever there is something to collect.
- `Handler` (`handler.dfy`)
  - The endpoint's decision logic, as a `Response` datatype.
  - A proof that the answer is the cheapest tour's cost, and that the "no route" error cannot occur.

Weights, distances and costs are Dafny `real`s, so road lengths such as 2.5 are exact.

## Model

| member | source | states |
|---|---|---|
| RoadGraph.RoadsValid | index.js:6-11 | every node has an adjacency entry, every road is positive, and every road is two-way with the same length |
| RoadGraph.DistanceIsShortest | index.js:6-11 | each entry of the distance table is the least weight of any walk between the two nodes in the road network |
| RoadGraph.RoadsDistance | index.js:6-11 | every pair of nodes is connected, and any shortest distance between them equals the table entry |
| RoadGraph.C1ToC3ViaHub | index.js:6-11 | the shortest distance from C1 to C3 is 5, via L1, although the walk via C2 weighs 7 |
| RoadGraph.ShortestToSelf | index.js:32-33 | in a graph with positive roads, the shortest distance from a node to itself is 0 |
| RoadGraph.ShortestUnique | index.js:27-51 | a shortest distance between two nodes is unique |
| RoadGraph.ShortestSymmetric | index.js:6-11 | over two-way roads, the shortest distance from a to b is also the shortest from b to a |
| RoadGraph.ExitEdge | index.js:41-47 | a walk that starts inside a node set and ends outside it has a road leaving the set |
| RoadGraph.ShortestWalkRealises | index.js:6-11 | for every pair of nodes there is a walk whose weight is the table entry |
| ShortestPath.MinEntry | index.js:36-37 | the chosen queue entry has the least distance, and no earlier entry ties it; this matches a stable sort followed by a shift |
| ShortestPath.Dijkstra | index.js:27-51 | a finite result is the shortest distance; Infinity is returned exactly when the end is unreachable; no node is expanded twice; the expanded nodes are exactly those reachable from the start |
| ShortestPath.PopIsShortest | index.js:36-39 | the least queued entry for an unvisited node carries that node's shortest distance |
| ShortestPath.RelaxImproving | index.js:42-45 | an improving relaxation keeps the loop invariant: tentative distances are witnessed by walks, visited distances are final, and improved nodes are queued |
| ShortestPath.RelaxNotImproving | index.js:43 | a relaxation that does not improve leaves that road relaxed |
| ShortestPath.SkipVisited | index.js:38 | dropping a queue entry for a visited node keeps the loop invariant |
| ShortestPath.Exhausted | index.js:35 | once the queue is empty, every node reachable from the start has been visited |
| ShortestPath.Finish | index.js:50 | at the end, a node is visited exactly when it is reachable, it has a finite distance exactly then, and that distance is shortest |
| ShortestPath.ShortestDistance | index.js:27-51 | running the algorithm on the road network yields the table distance for every pair of nodes |
| Cost.GetCost | index.js:21-24 | a load of at most 5, including the empty load, costs distance times 10; a heavier load costs distance times 8 |
| Cost.CostBounds | index.js:21-24 | over a non-negative distance, a leg's cost is non-negative and lies between the heavy-rate and base-rate prices |
| Cost.HeavierIsCheaper | index.js:23 | over a positive distance, a load above 5 is charged strictly less than any load at or below 5 |
| Cost.SameBandSameCost | index.js:23 | two loads on the same side of the threshold cost the same over the same distance |
| Orders.TotalWeightPerCenter | index.js:54-61 | the result maps each center with a positive total to that total; its keys are among C1, C2 and C3, and its values are positive |
| Orders.CenterTotalAppend | index.js:56-59 | the totals of a concatenated order are the sums of the two parts' totals |
| Orders.CenterTotalSwap | index.js:56-59 | swapping two neighbouring entries of an order changes no center's total |
| Orders.UnknownProductIgnored | index.js:57-60 | an entry for a product no center stocks leaves the pickups unchanged |
| Orders.DemandShape | index.js:55-60 | every pickup is at C1, C2 or C3, never at L1, and has a positive weight |
| Orders.PositiveTotal | index.js:56-60 | with non-negative quantities, a center's total is non-negative, and it is positive exactly when some entry for that center has a positive quantity |
| Orders.NoValidProductsIff | index.js:54-60 | with non-negative quantities, there are no pickups exactly when every entry names an unknown product or has quantity 0 |
| Routes.PickupOrderKeys | index.js:106 | the seeding order lists each pickup center exactly once, and nothing else |
| Routes.RemoveAll | index.js:111 | every element of the result is an element of the input |
| Routes.RemoveAllCount | index.js:111 | the result has no copy of x and as many copies of every other node as the input |
| Routes.Without | index.js:96 | dropping index i leaves one element fewer, all of them from the input |
| Routes.WithoutContents | index.js:96 | the dropped element plus the rest make up the original multiset |
| Routes.CostsAppend | index.js:69 | the costs recorded for two batches of routes, one after the other, are the costs of the combined batch |
| Routes.LegPrice | index.js:75-76 | pricing a leg by a shortest-distance call followed by a cost call gives that leg's cost at the table distance |
| Routes.RouteCostNonNegative | index.js:21-24 | no route costs less than 0 |
| Routes.Dfs | index.js:67-103 | the method appends to the recorded costs the cost of every route that extends the current path, in the order the search visits them |
| Routes.GenerateRoutes | index.js:64-115 | the method returns the cost of every route seeded from each pickup center in turn, in that order |
| Tours.WellFormedExtend | index.js:74-101 | a leg that starts where the route is, carries the load on board, and enters L1 only from elsewhere with a positive load keeps the route-in-progress property |
| Tours.UnloadInProgress | index.js:74-85 | the unload leg is taken only away from L1 with a positive load, and it leaves the vehicle empty at L1 with the same centers still to visit |
| Tours.PickInProgress | index.js:88-101 | a pickup leg is priced at the load before the pickup; it adds the center's weight on arrival, and it removes exactly that center from those still to visit |
| Tours.SeedInProgress | index.js:106-111 | the first leg leaves L1 empty; the vehicle then carries that center's weight, and every other center is still to visit |
| Tours.ExploreSound | index.js:67-103 | every route the search records from a state extends that state's path, is back at L1, and calls at every pickup center exactly once |
| Tours.AllRoutesSound | index.js:64-115 | every recorded route is a tour |
| Tours.ExploreComplete | index.js:67-103 | every tour extending a state's path is recorded from that state |
| Tours.AllRoutesComplete | index.js:64-115 | every tour is recorded |
| Tours.AllRoutesExact | index.js:64-115 | a route is recorded exactly when it is a tour |
| Tours.ExploreNonEmpty | index.js:67-103 | when all pickups are positive and the vehicle is loaded whenever it is away from L1, the search records at least one route |
| Tours.AllRoutesNonEmpty | index.js:106-112 | a non-empty set of positive pickups, none at L1, yields at least one route |
| Handler.MinimumOf | index.js:134 | the minimum of a non-empty list of costs is one of them and is no larger than any |
| Handler.CalculateCost | index.js:122-135 | the endpoint totals the order, answers "no valid products" when nothing is to be collected, and otherwise answers with the least cost the route generator records (the answer `Respond` defines; its meaning is stated by the lemmas below) |
| Handler.NeverNoRoute | index.js:130-132 | the "could not find a valid delivery path" answer is never given |
| Handler.MinimumIsCheapestTour | index.js:128-135 | the least recorded cost is the cost of some tour, no tour is cheaper, and it is non-negative |
| Handler.SuccessIsCheapestTour | index.js:122-135 | a successful answer is the cost of a tour collecting the order, no such tour is cheaper, and it is non-negative |
| Handler.ResponseCases | index.js:122-135 | the answer is "no valid products" exactly when there are no pickups, and it is a cost exactly when there are some |
| Handler.SingleCenterOrder | index.js:106-112 | an order whose pickups are all at one center x, totalling w, costs the empty drive from L1 to x plus the drive back from x to L1 priced at load w |
| Handler.SingleCenterRoutes | index.js:106-112 | a single pickup of w at a center x has exactly one route: out from L1 empty, then back to L1 with w on board |
| Handler.LightOrder | index.js:122-135 | the order of 3 units of A costs 60 |
| Handler.TwoProductsOneCenter | index.js:54-61 | an order of 1 unit of D and 2 units of E, both stocked at C2, makes one pickup of 3 there and costs 50 |
| Handler.HeavyOrder | index.js:122-135 | the order of 6 units of A costs 54, less than the order of 3 units, because the rate drops above a load of 5 |
| Handler.UnknownOnly | index.js:123-124 | an order naming only an unknown product is answered "no valid products" |

`Explore` reads a center's weight through `Weight`, which is 0 for a node that is not a pickup center. The search only ever visits pickup centers, so this matches reading `pickups[next]`, and the functions need no precondition.

The recursive search ends. Each call either removes one center from `remaining`, or drives back to L1, after which the next call must pick a center. The model states this measure as the pair (number of remaining centers, 1 if away from L1 else 0), ordered lexicographically.

## Left out

- HTTP (index.js:1-3, 118-119 and 136-142). The Express setup, body parsing, status codes, JSON responses and `app.listen` are I/O. The three answers are modelled as the `Response` datatype.
- The `path` and `visitedCenters` arguments of `dfs`. They are built but never stored. The model keeps `path` as a ghost list of legs, with their loads, only in order to state which tours are recorded.
- The routes accumulator. `dfs` pushes onto an array captured from `generateRoutes`. In the model the cost list is passed into `Dfs` and returned from it, which has the same effect in the same order.
- JavaScript input coercion.
  - An unknown product adds `NaN` under the key `"undefined"`, and the positive-total filter then drops it. The model skips unknown products, to the same effect.
  - Non-numeric quantities are out of scope. Quantities are real numbers; the lemmas that need non-negative quantities say so.
- IEEE floating point. All numbers are exact reals, so rounding in sums of weights and costs is not modelled.
- The queue sort. `queue.sort` followed by `shift` is modelled as taking the first entry of least distance. A stable sort picks that entry too. The comparator itself and the array reordering are not modelled.
- The neighbour iteration order inside `dijkstra`. The model relaxes the roads out of a node in an unspecified order. The proved result holds for every order.
- Object key order. `Object.keys(pickups)` yields C1, C2, C3 in that order, because the totals object is created with those keys. The model fixes that order.
- ShortestPath.Dijkstra: the facts that a tentative distance never increases and that a node is queued only on a strict improvement are not stated as separate properties. They are visible in the loop body: the only updates to the distance map and the queue happen when the candidate improves on the tentative distance.
- Unknown graph nodes. `dijkstra` is only called with the four nodes of the network, so node names outside it are not modelled.
