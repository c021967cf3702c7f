/** Run configuration, the shape every route keeps, and random route
    generation with the random draws supplied by the caller. */
module Routes {
  import opened Types

  /** The program's global parameters. Wind speed and direction only feed
      the fitness, which the model keeps abstract. */
  datatype Config = Config(
    populationSize: nat,
    numGenerations: nat,
    numWaypoints: nat,     // interior points between start and end
    start: Point,
    end: Point,
    mutationRate: real)

  /** The values the program runs with. */
  const SourceConfig: Config :=
    Config(500, 1000, 1, Point(0.0, 0.0), Point(100.0, 100.0), 0.1)

  /** Bounds of `random.uniform(0, 100)` for each coordinate. */
  const DomainMin: real := 0.0
  const DomainMax: real := 100.0

  predicate InDomain(p: Point) {
    DomainMin <= p.x <= DomainMax && DomainMin <= p.y <= DomainMax
  }

  /** Start, then exactly `numWaypoints` interior points, then end. */
  predicate WellShaped(route: Route, cfg: Config) {
    && |route| == cfg.numWaypoints + 2
    && route[0] == cfg.start
    && route[|route| - 1] == cfg.end
  }

  /** Every interior point was drawn from the coordinate domain. */
  predicate InteriorInDomain(route: Route) {
    forall i :: 0 < i < |route| - 1 ==> InDomain(route[i])
  }

  /** A route the optimiser may produce: well shaped, interior in domain. */
  predicate ValidRoute(route: Route, cfg: Config) {
    WellShaped(route, cfg) && InteriorInDomain(route)
  }

  predicate AllValid(pop: Population, cfg: Config) {
    forall j :: 0 <= j < |pop| ==> ValidRoute(pop[j], cfg)
  }

  /** The interior waypoints of a route. */
  function Interior(route: Route): seq<Point>
    requires |route| >= 2
  {
    route[1..|route| - 1]
  }

  /** `generate_random_route`: the start point, the drawn interior points in
      order, the end point. */
  function GenerateRoute(cfg: Config, drawn: seq<Point>): (route: Route)
    requires |drawn| == cfg.numWaypoints
    requires forall i :: 0 <= i < |drawn| ==> InDomain(drawn[i])
    ensures ValidRoute(route, cfg)
    ensures Interior(route) == drawn
  {
    [cfg.start] + drawn + [cfg.end]
  }

  /** Generation 0: one generated route per element of `draws`, so exactly
      `populationSize` routes, all valid. */
  function InitialPopulation(cfg: Config, draws: seq<seq<Point>>): (pop: Population)
    requires |draws| == cfg.populationSize
    requires forall j :: 0 <= j < |draws| ==> |draws[j]| == cfg.numWaypoints
    requires forall j, i :: 0 <= j < |draws| && 0 <= i < |draws[j]| ==> InDomain(draws[j][i])
    ensures |pop| == cfg.populationSize
    ensures AllValid(pop, cfg)
    ensures forall j :: 0 <= j < |pop| ==> Interior(pop[j]) == draws[j]
  {
    seq(|draws|, j requires 0 <= j < |draws| => GenerateRoute(cfg, draws[j]))
  }
}
