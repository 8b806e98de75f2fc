/**
 * The planning constants of the maintenance planner, as one value passed to
 * every operation that reads them.
 */
module Settings {
  /**
   * `perDay`: facilities serviced per work day; `maxTransportKm`: the
   * evening transport budget in kilometres; `speedKmh`: transport speed;
   * `workHours`: hours of one work day; `clusterKm`: the edge threshold of
   * the maintenance graph.
   */
  datatype Config = Config(perDay: nat, maxTransportKm: real, speedKmh: real, workHours: real, clusterKm: real)

  /** The constants the planner divides by, and the graph threshold, are positive. */
  predicate Valid(c: Config)
  {
    c.perDay > 0 && c.speedKmh > 0.0 && c.workHours > 0.0 && c.clusterKm > 0.0
  }

  /**
   * The values documented for the planner: 4 facilities a day, 120 km at
   * 60 km/h, 8-hour days; the graph threshold is the same 120 km, since the
   * cluster detector builds its graph with the maintenance transport limit.
   */
  const Documented: Config := Config(4, 120.0, 60.0, 8.0, 120.0)

  /** The documented values meet every requirement the planner places on its constants. */
  lemma DocumentedValid()
    ensures Valid(Documented)
    ensures Documented.clusterKm == Documented.maxTransportKm
  {
  }
}
