/** Shared vocabulary of the route optimiser: points, hazard zones, routes,
    populations, and the failure-compatible result of an operation that the
    program would abort with an exception. */
module Types {

  /** A position on the chart, (longitude, latitude). */
  datatype Point = Point(x: real, y: real)

  /** A circular hazard ("danger zone"): centre and radius. */
  datatype Zone = Zone(cx: real, cy: real, radius: real)

  /** A candidate path: start point, interior waypoints, end point. */
  type Route = seq<Point>

  /** One generation of candidate routes. */
  type Population = seq<Route>

  /** The exceptions the optimiser's core can raise. */
  datatype Error =
    | EmptyParentPool   // random.choices on an empty list
    | IndexOutOfRange   // item assignment past the end of a route
    | EmptyRange        // random.randint(1, 0): num_waypoints is 0
    | EmptyPopulation   // min() of an empty population

  /** Success or the error that aborts the computation; usable with `:-`. */
  datatype Result<+T> = Success(value: T) | Failure(error: Error) {

    predicate IsFailure() {
      Failure?
    }

    function PropagateFailure<U>(): Result<U>
      requires Failure?
    {
      Failure(error)
    }

    function Extract(): T
      requires Success?
    {
      value
    }
  }
}
