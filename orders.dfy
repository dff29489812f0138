/**
 * Turning an order (product name to quantity) into the weight to collect at
 * each pickup center.
 */
module Orders {
  import opened RoadGraph

  /** An order body, as its entries in iteration order: product name and quantity. */
  type Order = seq<(string, real)>

  /** The center that stocks each product. */
  const ProductCenterMap: map<string, Node> :=
    map["A" := C1, "B" := C1, "C" := C1,
        "D" := C2, "E" := C2, "F" := C2,
        "G" := C3, "H" := C3, "I" := C3]

  /** The fulfillment centers; unlike the hub L1, each stocks products. */
  const Centers: set<Node> := {C1, C2, C3}

  /** Does this entry name a product stocked at center c? */
  predicate StockedAt(entry: (string, real), c: Node) {
    entry.0 in ProductCenterMap && ProductCenterMap[entry.0] == c
  }

  /** The total quantity the order asks of center c; unknown products contribute nothing. */
  function CenterTotal(order: Order, c: Node): real
    decreases |order|
  {
    if order == [] then 0.0
    else CenterTotal(order[..|order|-1], c) + (if StockedAt(order[|order|-1], c) then order[|order|-1].1 else 0.0)
  }

  /** The pickups: every center whose total is positive, with that total. */
  function Demand(order: Order): map<Node, real> {
    map c | c in Centers && CenterTotal(order, c) > 0.0 :: CenterTotal(order, c)
  }

  /**
   * `totalWeightPerCenter(order)`: sums each product's quantity into its
   * center, skipping products no center stocks, then keeps the centers with a
   * positive total.
   */
  method TotalWeightPerCenter(order: Order) returns (pickups: map<Node, real>)
    ensures pickups == Demand(order)
    ensures forall c :: c in pickups ==> c in Centers && pickups[c] > 0.0
  {
    var centers: map<Node, real> := map[C1 := 0.0, C2 := 0.0, C3 := 0.0];
    for i := 0 to |order|
      invariant centers.Keys == Centers
      invariant forall c :: c in centers ==> centers[c] == CenterTotal(order[..i], c)
    {
      var (product, qty) := order[i];
      assert order[..i+1][..i] == order[..i];
      if product in ProductCenterMap {
        var center := ProductCenterMap[product];
        centers := centers[center := centers[center] + qty];
      }
    }
    assert order[..|order|] == order;
    pickups := map c | c in centers && centers[c] > 0.0 :: centers[c];
  }

  // ---------------------------------------------------------------------------
  // Properties

  /** Totals add up over a split of the order, so entry order does not matter. */
  lemma {:induction false} CenterTotalAppend(a: Order, b: Order, c: Node)
    ensures CenterTotal(a + b, c) == CenterTotal(a, c) + CenterTotal(b, c)
    decreases |b|
  {
    if b == [] {
      assert a + b == a;
    } else {
      var b' := b[..|b|-1];
      assert (a + b)[..|a + b| - 1] == a + b';
      CenterTotalAppend(a, b', c);
    }
  }

  /** A single entry's contribution. */
  lemma CenterTotalSingle(e: (string, real), c: Node)
    ensures CenterTotal([e], c) == if StockedAt(e, c) then e.1 else 0.0
  {
    assert [e][..0] == [];
  }

  /** Swapping two neighbouring entries changes no total. */
  lemma CenterTotalSwap(a: Order, e1: (string, real), e2: (string, real), b: Order, c: Node)
    ensures CenterTotal(a + [e1, e2] + b, c) == CenterTotal(a + [e2, e1] + b, c)
  {
    CenterTotalAppend(a + [e1, e2], b, c);
    CenterTotalAppend(a + [e2, e1], b, c);
    CenterTotalAppend(a, [e1, e2], c);
    CenterTotalAppend(a, [e2, e1], c);
    CenterTotalAppend([e1], [e2], c);
    CenterTotalAppend([e2], [e1], c);
    assert [e1] + [e2] == [e1, e2];
    assert [e2] + [e1] == [e2, e1];
    CenterTotalSingle(e1, c);
    CenterTotalSingle(e2, c);
  }

  /** An entry for a product no center stocks leaves the pickups unchanged. */
  lemma UnknownProductIgnored(a: Order, product: string, qty: real, b: Order)
    requires product !in ProductCenterMap
    ensures Demand(a + [(product, qty)] + b) == Demand(a + b)
  {
    forall c ensures CenterTotal(a + [(product, qty)] + b, c) == CenterTotal(a + b, c) {
      CenterTotalAppend(a + [(product, qty)], b, c);
      CenterTotalAppend(a, [(product, qty)], c);
      CenterTotalAppend(a, b, c);
      CenterTotalSingle((product, qty), c);
    }
  }

  /** Every pickup is at one of the three centers, never the hub, and is positive. */
  lemma DemandShape(order: Order)
    ensures forall c :: c in Demand(order) ==> c in Centers && c != L1 && Demand(order)[c] > 0.0
  {
  }

  /** With non-negative quantities, a center's total is positive exactly when some entry for it is. */
  lemma {:induction false} PositiveTotal(order: Order, c: Node)
    requires forall i :: 0 <= i < |order| ==> order[i].1 >= 0.0
    ensures CenterTotal(order, c) >= 0.0
    ensures CenterTotal(order, c) > 0.0 <==> exists i :: 0 <= i < |order| && StockedAt(order[i], c) && order[i].1 > 0.0
    decreases |order|
  {
    if order != [] {
      var last := |order| - 1;
      var front := order[..last];
      PositiveTotal(front, c);
      if CenterTotal(front, c) > 0.0 {
        var i :| 0 <= i < |front| && StockedAt(front[i], c) && front[i].1 > 0.0;
        assert order[i] == front[i];
      }
      if exists i :: 0 <= i < |order| && StockedAt(order[i], c) && order[i].1 > 0.0 {
        var i :| 0 <= i < |order| && StockedAt(order[i], c) && order[i].1 > 0.0;
        if i < last {
          assert front[i] == order[i];
        }
      }
    }
  }

  /**
   * With non-negative quantities, the order names no valid product exactly
   * when every entry is unknown or has quantity zero.
   */
  lemma NoValidProductsIff(order: Order)
    requires forall i :: 0 <= i < |order| ==> order[i].1 >= 0.0
    ensures Demand(order) == map[] <==>
      forall i :: 0 <= i < |order| ==> order[i].0 !in ProductCenterMap || order[i].1 == 0.0
  {
    PositiveTotal(order, C1);
    PositiveTotal(order, C2);
    PositiveTotal(order, C3);
    if Demand(order) == map[] {
      forall i | 0 <= i < |order| && order[i].0 in ProductCenterMap ensures order[i].1 == 0.0 {
        var c := ProductCenterMap[order[i].0];
        assert c in Centers;
        assert StockedAt(order[i], c);
        assert c !in Demand(order);
      }
    } else {
      var c :| c in Demand(order);
      var i :| 0 <= i < |order| && StockedAt(order[i], c) && order[i].1 > 0.0;
    }
  }
}
