/**
 * Distances between facilities. The haversine formula of
 * `DistanzBerechner` is not modelled; every operation takes the distance
 * function `m` as a parameter and relies only on what `IsDistance` states.
 */
module Geo {
  import opened Wrappers
  import opened Facilities

  datatype Point = Point(latitude: real, longitude: real)

  /** A distance function between two positions, in kilometres. */
  type Metric = (Point, Point) -> real

  /** `Float.MAX_VALUE`, the distance reported when a coordinate is missing. */
  const Sentinel: real := 340282346638528859811704183484516925440.0

  /**
   * What the model assumes of the great-circle distance: it is never
   * negative, it is symmetric, and it stays below `Sentinel` (the haversine
   * result is at most pi times the earth radius).
   */
  ghost predicate IsDistance(m: Metric)
  {
    forall p, q :: 0.0 <= m(p, q) < Sentinel && m(p, q) == m(q, p)
  }

  /**
   * The position the graph uses for a facility: a missing coordinate is
   * read as 0.
   */
  function GraphPosition(f: Facility): Point
  {
    Point(f.latitude.GetOr(0.0), f.longitude.GetOr(0.0))
  }

  /** `WindkraftanlageGraph.berechneDistanz`: the distance between two graph nodes' facilities. */
  function GraphDistance(m: Metric, a: Facility, b: Facility): (d: real)
    requires IsDistance(m)
    ensures 0.0 <= d < Sentinel
    ensures d == m(GraphPosition(b), GraphPosition(a))
  {
    m(GraphPosition(a), GraphPosition(b))
  }

  /**
   * `RoutenOptimierer.berechneDistanz`: the distance between two
   * facilities, or `Sentinel` when either lacks a coordinate.
   */
  function RouteDistance(m: Metric, a: Facility, b: Facility): (d: real)
    requires IsDistance(m)
    ensures 0.0 <= d <= Sentinel
    ensures d < Sentinel <==> HasCoordinates(a) && HasCoordinates(b)
  {
    if HasCoordinates(a) && HasCoordinates(b)
    then m(Point(a.latitude.value, a.longitude.value), Point(b.latitude.value, b.longitude.value))
    else Sentinel
  }

  /** The route distance is symmetric. */
  lemma RouteDistanceSymmetric(m: Metric, a: Facility, b: Facility)
    requires IsDistance(m)
    ensures RouteDistance(m, a, b) == RouteDistance(m, b, a)
  {
  }

  /** Both distances agree on facilities that have coordinates. */
  lemma RouteDistanceOnNodes(m: Metric, a: Facility, b: Facility)
    requires IsDistance(m) && HasCoordinates(a) && HasCoordinates(b)
    ensures RouteDistance(m, a, b) == GraphDistance(m, a, b)
  {
  }
}
