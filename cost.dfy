/**
 * The price of driving one leg of a route: a rate per unit of distance that
 * depends on the load on board.
 */
module Cost {
  /** Loads up to this weight are charged the base rate. */
  const Threshold: real := 5.0
  /** Rate per unit of distance for an empty vehicle or a light load. */
  const BaseRate: real := 10.0
  /** Rate per unit of distance for a load above the threshold. */
  const HeavyRate: real := 8.0

  /**
   * `getCost(distance, weight)`.  The empty-vehicle case is a branch of its
   * own in the program; its contract shows it charges the light-load rate.
   */
  function GetCost(distance: real, weight: real): (c: real)
    ensures weight <= Threshold ==> c == distance * BaseRate
    ensures weight > Threshold ==> c == distance * HeavyRate
  {
    if weight == 0.0 then distance * BaseRate
    else distance * (if weight <= Threshold then BaseRate else HeavyRate)
  }

  /** A leg never costs less than nothing, and no more than the base rate allows. */
  lemma CostBounds(distance: real, weight: real)
    requires distance >= 0.0
    ensures distance * HeavyRate <= GetCost(distance, weight) <= distance * BaseRate
    ensures GetCost(distance, weight) >= 0.0
  {
  }

  /**
   * The rate steps down above the threshold: over a positive distance, a load
   * above it is charged strictly less than any load at or below it.
   */
  lemma HeavierIsCheaper(distance: real, light: real, heavy: real)
    requires distance > 0.0 && light <= Threshold < heavy
    ensures GetCost(distance, heavy) < GetCost(distance, light)
  {
  }

  /** Within one rate band the cost depends only on the distance. */
  lemma SameBandSameCost(distance: real, w1: real, w2: real)
    requires (w1 <= Threshold) == (w2 <= Threshold)
    ensures GetCost(distance, w1) == GetCost(distance, w2)
  {
  }
}
