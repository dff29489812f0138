/**
 * What a delivery tour is, independently of how the route generator searches
 * for them, and the proof that the generator finds exactly these tours.
 */
module Tours {
  import opened RoadGraph
  import opened Routes

  /** The load on board after leg l: nothing once unloaded at L1, else the load plus the pickup. */
  function LoadAfter(p: Pickups, l: Leg): real {
    if l.to == L1 then 0.0 else l.load + Weight(p, l.to)
  }

  /** The pickup centers a route calls at, in order. */
  function Stops(r: seq<Leg>): seq<Node>
    decreases |r|
  {
    if r == [] then [] else Stops(r[..|r|-1]) + (if r[|r|-1].to == L1 then [] else [r[|r|-1].to])
  }

  /**
   * A route in progress: it leaves L1 empty, each leg starts where the last
   * one ended with the load the last one left on board, and it drives into
   * L1 only from elsewhere and only to unload a positive load.
   */
  ghost predicate WellFormed(p: Pickups, r: seq<Leg>) {
    |r| >= 1 && r[0].from == L1 && r[0].load == 0.0 &&
    (forall i {:trigger Joined(p, r, i)} :: Joined(p, r, i)) &&
    (forall i :: 0 <= i < |r| && r[i].to == L1 ==> r[i].from != L1 && r[i].load > 0.0)
  }

  /** Leg i, if it is not the first, starts where leg i-1 ended, with the load leg i-1 left on board. */
  predicate Joined(p: Pickups, r: seq<Leg>, i: int) {
    0 < i < |r| ==> r[i].from == r[i-1].to && r[i].load == LoadAfter(p, r[i-1])
  }

  /** A complete tour: well formed, back at L1, and calling at every pickup center exactly once. */
  ghost predicate ValidRoute(p: Pickups, r: seq<Leg>) {
    WellFormed(p, r) && r[|r|-1].to == L1 && multiset(Stops(r)) == multiset(PickupOrder(p))
  }

  /**
   * The state `dfs` is called in: `path` is a route in progress ending at
   * `current` with `carried` on board, and `remaining` holds exactly the
   * pickup centers it has not called at.
   */
  ghost predicate InProgress(p: Pickups, remaining: seq<Node>, current: Node, carried: real, path: seq<Leg>) {
    WellFormed(p, path) && current == path[|path|-1].to && carried == LoadAfter(p, path[|path|-1]) &&
    multiset(Stops(path)) + multiset(remaining) == multiset(PickupOrder(p))
  }

  // ---------------------------------------------------------------------------
  // Routes in progress

  lemma {:induction false} StopsAppend(a: seq<Leg>, b: seq<Leg>)
    ensures Stops(a + b) == Stops(a) + Stops(b)
    decreases |b|
  {
    if b == [] {
      assert a + b == a;
    } else {
      var b' := b[..|b|-1];
      assert (a + b)[..|a + b| - 1] == a + b';
      StopsAppend(a, b');
    }
  }

  lemma StopsLast(r: seq<Leg>, l: Leg)
    ensures Stops(r + [l]) == Stops(r) + (if l.to == L1 then [] else [l.to])
  {
    assert (r + [l])[..|r|] == r;
  }

  /** A leg that fits on the end of a route in progress keeps it well formed. */
  lemma WellFormedExtend(p: Pickups, r: seq<Leg>, l: Leg)
    requires WellFormed(p, r)
    requires l.from == r[|r|-1].to && l.load == LoadAfter(p, r[|r|-1])
    requires l.to == L1 ==> l.from != L1 && l.load > 0.0
    ensures WellFormed(p, r + [l])
  {
    var r' := r + [l];
    forall i ensures Joined(p, r', i) {
      if 0 < i < |r| {
        assert Joined(p, r, i);
        assert r'[i] == r[i] && r'[i-1] == r[i-1];
      } else if i == |r| {
        assert r'[i] == l && r'[i-1] == r[|r|-1];
      }
    }
    forall i | 0 <= i < |r'| && r'[i].to == L1 ensures r'[i].from != L1 && r'[i].load > 0.0 {
      if i < |r| {
        assert r'[i] == r[i];
      }
    }
  }

  /** Driving from a center to L1 to unload. */
  lemma UnloadInProgress(p: Pickups, remaining: seq<Node>, current: Node, carried: real, path: seq<Leg>)
    requires InProgress(p, remaining, current, carried, path)
    requires current != L1 && carried > 0.0
    ensures InProgress(p, remaining, L1, 0.0, path + [Leg(current, L1, carried)])
  {
    WellFormedExtend(p, path, Leg(current, L1, carried));
    StopsLast(path, Leg(current, L1, carried));
  }

  /** Driving on to the i-th remaining center and loading its weight. */
  lemma PickInProgress(p: Pickups, remaining: seq<Node>, current: Node, carried: real, path: seq<Leg>, i: nat)
    requires L1 !in p && forall n :: n in remaining ==> n in p
    requires InProgress(p, remaining, current, carried, path) && i < |remaining|
    ensures InProgress(p, Without(remaining, i), remaining[i], carried + Weight(p, remaining[i]),
                       path + [Leg(current, remaining[i], carried)])
  {
    var next := remaining[i];
    assert next in p;
    WithoutContents(remaining, i);
    WellFormedExtend(p, path, Leg(current, next, carried));
    StopsLast(path, Leg(current, next, carried));
    assert multiset(Stops(path + [Leg(current, next, carried)])) == multiset(Stops(path)) + multiset{next};
  }

  /** Driving empty from L1 to a pickup center starts a route. */
  lemma SeedInProgress(p: Pickups, c: Node)
    requires L1 !in p && c in p
    ensures InProgress(p, RemoveAll(PickupOrder(p), c), c, Weight(p, c), [Leg(L1, c, 0.0)])
  {
    SeedLeg(p, c);
    SeedStops(p, c);
  }

  lemma SeedLeg(p: Pickups, c: Node)
    requires c != L1
    ensures WellFormed(p, [Leg(L1, c, 0.0)]) && Stops([Leg(L1, c, 0.0)]) == [c]
  {
    StopsLast([], Leg(L1, c, 0.0));
    assert [] + [Leg(L1, c, 0.0)] == [Leg(L1, c, 0.0)];
  }

  lemma SeedStops(p: Pickups, c: Node)
    requires c in p
    ensures multiset{c} + multiset(RemoveAll(PickupOrder(p), c)) == multiset(PickupOrder(p))
  {
    forall n ensures (multiset{c} + multiset(RemoveAll(PickupOrder(p), c)))[n] == multiset(PickupOrder(p))[n] {
      SeedStopsAt(p, c, n);
    }
  }

  lemma SeedStopsAt(p: Pickups, c: Node, n: Node)
    requires c in p
    ensures (multiset{c} + multiset(RemoveAll(PickupOrder(p), c)))[n] == multiset(PickupOrder(p))[n]
  {
    RemoveAllCount(PickupOrder(p), c, n);
    PickupOrderCount(p, n);
  }

  // ---------------------------------------------------------------------------
  // Soundness: every recorded route is a tour

  lemma {:induction false} ExploreSound(p: Pickups, remaining: seq<Node>, current: Node, carried: real,
                                        path: seq<Leg>, r: seq<Leg>)
    requires L1 !in p && forall n :: n in remaining ==> n in p
    requires InProgress(p, remaining, current, carried, path)
    requires r in Explore(p, remaining, current, carried, path)
    ensures ValidRoute(p, r) && |path| <= |r| && r[..|path|] == path
    decreases |remaining|, (if current != L1 then 1 else 0)
  {
    if |remaining| == 0 && current == L1 {
      assert r == path;
      assert r[..|path|] == r;
    } else {
      var path' := path + [Leg(current, L1, carried)];
      var unload := if current != L1 && carried > 0.0 then Explore(p, remaining, L1, 0.0, path') else [];
      assert Explore(p, remaining, current, carried, path) == unload + PickEach(p, remaining, current, carried, path, 0);
      if r in unload {
        UnloadInProgress(p, remaining, current, carried, path);
        ExploreSound(p, remaining, L1, 0.0, path', r);
        assert r[..|path|] == r[..|path'|][..|path|];
      } else {
        PickEachSound(p, remaining, current, carried, path, 0, r);
      }
    }
  }

  lemma {:induction false} PickEachSound(p: Pickups, remaining: seq<Node>, current: Node, carried: real,
                                         path: seq<Leg>, i: nat, r: seq<Leg>)
    requires L1 !in p && forall n :: n in remaining ==> n in p
    requires InProgress(p, remaining, current, carried, path) && i <= |remaining|
    requires r in PickEach(p, remaining, current, carried, path, i)
    ensures ValidRoute(p, r) && |path| <= |r| && r[..|path|] == path
    decreases |remaining|, (if current != L1 then 1 else 0), |remaining| - i
  {
    if i == |remaining| {
      assert false;
    } else {
      var next := remaining[i];
      var path' := path + [Leg(current, next, carried)];
      var child := Explore(p, Without(remaining, i), next, carried + Weight(p, next), path');
      assert PickEach(p, remaining, current, carried, path, i) == child + PickEach(p, remaining, current, carried, path, i + 1);
      if r in child {
        PickInProgress(p, remaining, current, carried, path, i);
        ExploreSound(p, Without(remaining, i), next, carried + Weight(p, next), path', r);
        assert r[..|path|] == r[..|path'|][..|path|];
      } else {
        PickEachSound(p, remaining, current, carried, path, i + 1, r);
      }
    }
  }

  lemma {:induction false} SeedFromSound(p: Pickups, j: nat, r: seq<Leg>)
    requires L1 !in p && j <= |PickupOrder(p)|
    requires forall n :: n in PickupOrder(p) ==> n in p
    requires r in SeedFrom(p, PickupOrder(p), j)
    ensures ValidRoute(p, r)
    decreases |PickupOrder(p)| - j
  {
    var keys := PickupOrder(p);
    if j == |keys| {
      assert false;
    } else {
      var c := keys[j];
      var seeded := Explore(p, RemoveAll(keys, c), c, Weight(p, c), [Leg(L1, c, 0.0)]);
      assert SeedFrom(p, keys, j) == seeded + SeedFrom(p, keys, j + 1);
      if r in seeded {
        SeedInProgress(p, c);
        ExploreSound(p, RemoveAll(keys, c), c, Weight(p, c), [Leg(L1, c, 0.0)], r);
      } else {
        SeedFromSound(p, j + 1, r);
      }
    }
  }

  /** Every route `generateRoutes` records is a tour. */
  lemma AllRoutesSound(p: Pickups, r: seq<Leg>)
    requires L1 !in p && r in AllRoutes(p)
    ensures ValidRoute(p, r)
  {
    PickupOrderKeys(p);
    SeedFromSound(p, 0, r);
  }

  // ---------------------------------------------------------------------------
  // Completeness: every tour is recorded

  lemma {:induction false} InPickEach(p: Pickups, remaining: seq<Node>, current: Node, carried: real,
                                      path: seq<Leg>, i: nat, k: nat, r: seq<Leg>)
    requires i <= k < |remaining|
    requires r in Explore(p, Without(remaining, k), remaining[k], carried + Weight(p, remaining[k]),
                          path + [Leg(current, remaining[k], carried)])
    ensures r in PickEach(p, remaining, current, carried, path, i)
    decreases k - i
  {
    if i < k {
      InPickEach(p, remaining, current, carried, path, i + 1, k, r);
    }
  }

  lemma {:induction false} InSeedFrom(p: Pickups, keys: seq<Node>, j: nat, k: nat, r: seq<Leg>)
    requires j <= k < |keys|
    requires r in Explore(p, RemoveAll(keys, keys[k]), keys[k], Weight(p, keys[k]), [Leg(L1, keys[k], 0.0)])
    ensures r in SeedFrom(p, keys, j)
    decreases k - j
  {
    var first := Explore(p, RemoveAll(keys, keys[j]), keys[j], Weight(p, keys[j]), [Leg(L1, keys[j], 0.0)]);
    var rest := SeedFrom(p, keys, j + 1);
    assert SeedFrom(p, keys, j) == first + rest;
    if j < k {
      InSeedFrom(p, keys, j + 1, k, r);
      assert r in rest;
    } else {
      assert r in first;
    }
  }

  /** The next leg of a tour, after a route in progress that it extends. */
  lemma NextLeg(p: Pickups, remaining: seq<Node>, current: Node, carried: real, path: seq<Leg>, r: seq<Leg>)
    requires InProgress(p, remaining, current, carried, path)
    requires ValidRoute(p, r) && |path| < |r| && r[..|path|] == path
    ensures r[..|path| + 1] == path + [Leg(current, r[|path|].to, carried)]
    ensures r[|path|].to == L1 ==> current != L1 && carried > 0.0
    ensures r[|path|].to != L1 ==> r[|path|].to in remaining
  {
    var n := |path|;
    assert Joined(p, r, n);
    assert r[n-1] == path[n-1];
    assert r[..n+1] == path + [r[n]];
    assert r[n] == Leg(current, r[n].to, carried);
    if r[n].to != L1 {
      assert r == r[..n+1] + r[n+1..];
      StopsAppend(r[..n+1], r[n+1..]);
      StopsLast(path, r[n]);
      var x := r[n].to;
      assert multiset(Stops(r))[x] == multiset(Stops(path))[x] + 1 + multiset(Stops(r[n+1..]))[x];
      assert multiset(remaining)[x] >= 1;
    }
  }

  lemma {:induction false} ExploreComplete(p: Pickups, remaining: seq<Node>, current: Node, carried: real,
                                           path: seq<Leg>, r: seq<Leg>)
    requires L1 !in p && forall n :: n in remaining ==> n in p
    requires InProgress(p, remaining, current, carried, path)
    requires ValidRoute(p, r) && |path| <= |r| && r[..|path|] == path
    ensures r in Explore(p, remaining, current, carried, path)
    decreases |r| - |path|, 1
  {
    if |path| == |r| {
      Arrived(p, remaining, current, carried, path, r);
    } else {
      NextLeg(p, remaining, current, carried, path, r);
      if r[|path|].to == L1 {
        UnloadComplete(p, remaining, current, carried, path, r);
      } else {
        var k :| 0 <= k < |remaining| && remaining[k] == r[|path|].to;
        PickComplete(p, remaining, current, carried, path, k, r);
      }
    }
  }

  /** A tour that is already complete is recorded as it stands. */
  lemma Arrived(p: Pickups, remaining: seq<Node>, current: Node, carried: real, path: seq<Leg>, r: seq<Leg>)
    requires InProgress(p, remaining, current, carried, path)
    requires ValidRoute(p, r) && |path| == |r| && r[..|path|] == path
    ensures r in Explore(p, remaining, current, carried, path)
  {
    assert r == path by { assert r[..|r|] == r; }
    assert |multiset(Stops(path)) + multiset(remaining)| == |multiset(Stops(path))| + |multiset(remaining)|;
    assert |multiset(remaining)| == 0;
  }

  /** A tour whose next leg unloads at L1 is among the routes that unload now. */
  lemma {:induction false} UnloadComplete(p: Pickups, remaining: seq<Node>, current: Node, carried: real,
                                          path: seq<Leg>, r: seq<Leg>)
    requires L1 !in p && forall n :: n in remaining ==> n in p
    requires InProgress(p, remaining, current, carried, path)
    requires ValidRoute(p, r) && |path| < |r| && r[..|path| + 1] == path + [Leg(current, L1, carried)]
    requires current != L1 && carried > 0.0
    ensures r in Explore(p, remaining, current, carried, path)
    decreases |r| - |path|, 0
  {
    var path' := path + [Leg(current, L1, carried)];
    UnloadInProgress(p, remaining, current, carried, path);
    ExploreComplete(p, remaining, L1, 0.0, path', r);
    assert Explore(p, remaining, current, carried, path)
        == Explore(p, remaining, L1, 0.0, path') + PickEach(p, remaining, current, carried, path, 0);
  }

  /** A tour whose next leg drives to the k-th remaining center is among the routes that go there. */
  lemma {:induction false} PickComplete(p: Pickups, remaining: seq<Node>, current: Node, carried: real,
                                        path: seq<Leg>, k: nat, r: seq<Leg>)
    requires L1 !in p && forall n :: n in remaining ==> n in p
    requires InProgress(p, remaining, current, carried, path) && k < |remaining|
    requires ValidRoute(p, r) && |path| < |r| && r[..|path| + 1] == path + [Leg(current, remaining[k], carried)]
    ensures r in Explore(p, remaining, current, carried, path)
    decreases |r| - |path|, 0
  {
    var next := remaining[k];
    var path' := path + [Leg(current, next, carried)];
    PickInProgress(p, remaining, current, carried, path, k);
    ExploreComplete(p, Without(remaining, k), next, carried + Weight(p, next), path', r);
    InPickEach(p, remaining, current, carried, path, 0, k, r);
    var unload := if current != L1 && carried > 0.0
                  then Explore(p, remaining, L1, 0.0, path + [Leg(current, L1, carried)]) else [];
    assert Explore(p, remaining, current, carried, path) == unload + PickEach(p, remaining, current, carried, path, 0);
  }

  /** A tour starts by driving empty from L1 to one of the pickup centers. */
  lemma FirstLeg(p: Pickups, r: seq<Leg>)
    requires ValidRoute(p, r)
    ensures r[0].to in p && r[0].to != L1
    ensures r[..1] == [Leg(L1, r[0].to, 0.0)]
  {
    assert r == [r[0]] + r[1..];
    StopsAppend([r[0]], r[1..]);
    SeedLeg(p, r[0].to);
    assert r[0] == Leg(L1, r[0].to, 0.0);
    assert r[0].to in multiset(Stops(r));
    PickupOrderHas(p, r[0].to);
  }

  /** Every tour is among the routes `generateRoutes` records. */
  lemma AllRoutesComplete(p: Pickups, r: seq<Leg>)
    requires L1 !in p && ValidRoute(p, r)
    ensures r in AllRoutes(p)
  {
    FirstLeg(p, r);
    var c := r[0].to;
    var keys := PickupOrder(p);
    PickupOrderKeys(p);
    var j :| 0 <= j < |keys| && keys[j] == c;
    SeedInProgress(p, c);
    ExploreComplete(p, RemoveAll(keys, c), c, Weight(p, c), [Leg(L1, c, 0.0)], r);
    InSeedFrom(p, keys, 0, j, r);
  }

  /** `generateRoutes` records exactly the tours. */
  lemma AllRoutesExact(p: Pickups)
    requires L1 !in p
    ensures forall r :: r in AllRoutes(p) <==> ValidRoute(p, r)
  {
    forall r ensures r in AllRoutes(p) <==> ValidRoute(p, r) {
      if r in AllRoutes(p) {
        AllRoutesSound(p, r);
      }
      if ValidRoute(p, r) {
        AllRoutesComplete(p, r);
      }
    }
  }

  // ---------------------------------------------------------------------------
  // There is always a route

  /** From any state `dfs` can be called in, at least one route is recorded. */
  lemma {:induction false} ExploreNonEmpty(p: Pickups, remaining: seq<Node>, current: Node, carried: real,
                                           path: seq<Leg>)
    requires forall n :: n in remaining ==> n in p && n != L1 && p[n] > 0.0
    requires carried >= 0.0 && (current != L1 ==> carried > 0.0)
    ensures |Explore(p, remaining, current, carried, path)| > 0
    decreases |remaining|, (if current != L1 then 1 else 0)
  {
    if !(|remaining| == 0 && current == L1) {
      var path' := path + [Leg(current, L1, carried)];
      var unload := if current != L1 && carried > 0.0 then Explore(p, remaining, L1, 0.0, path') else [];
      assert Explore(p, remaining, current, carried, path) == unload + PickEach(p, remaining, current, carried, path, 0);
      if current != L1 {
        ExploreNonEmpty(p, remaining, L1, 0.0, path');
      } else {
        var next := remaining[0];
        var path'' := path + [Leg(current, next, carried)];
        ExploreNonEmpty(p, Without(remaining, 0), next, carried + Weight(p, next), path'');
        assert PickEach(p, remaining, current, carried, path, 0)
            == Explore(p, Without(remaining, 0), next, carried + Weight(p, next), path'')
             + PickEach(p, remaining, current, carried, path, 1);
      }
    }
  }

  /** Some pickup with a positive weight, and no pickup at the hub, means at least one route. */
  lemma AllRoutesNonEmpty(p: Pickups)
    requires p != map[] && forall n :: n in p ==> n != L1 && p[n] > 0.0
    ensures |AllRoutes(p)| > 0
  {
    PickupOrderKeys(p);
    var keys := PickupOrder(p);
    var c :| c in p;
    assert c in keys;
    var c0 := keys[0];
    ExploreNonEmpty(p, RemoveAll(keys, c0), c0, Weight(p, c0), [Leg(L1, c0, 0.0)]);
    assert SeedFrom(p, keys, 0)
        == Explore(p, RemoveAll(keys, c0), c0, Weight(p, c0), [Leg(L1, c0, 0.0)]) + SeedFrom(p, keys, 1);
  }
}
