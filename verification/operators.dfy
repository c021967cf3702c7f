/** The genetic operators: single-point crossover and one-point mutation.
    The random cut, coin, index and fresh point are parameters. */
module Operators {
  import opened Types
  import opened Routes

  /** `s[:c]` in Python: the slice stops at the end of a short sequence. */
  function Prefix(s: Route, c: nat): Route {
    if c <= |s| then s[..c] else s
  }

  /** `s[c:]` in Python: empty when `c` is past the end. */
  function Suffix(s: Route, c: nat): Route {
    if c <= |s| then s[c..] else []
  }

  /** `crossover`: the first child is the first parent before the cut and
      the second parent from the cut on; the second child the other way
      round. */
  function Crossover(p1: Route, p2: Route, cut: nat): (children: (Route, Route))
    ensures |children.0| == |Prefix(p1, cut)| + |Suffix(p2, cut)|
    ensures |children.1| == |Prefix(p2, cut)| + |Suffix(p1, cut)|
    ensures |p1| == |p2| && cut <= |p1| ==>
      && |children.0| == |p1| && |children.1| == |p1|
      && (forall i :: 0 <= i < |p1| ==>
            children.0[i] == (if i < cut then p1[i] else p2[i]) &&
            children.1[i] == (if i < cut then p2[i] else p1[i]))
  {
    (Prefix(p1, cut) + Suffix(p2, cut), Prefix(p2, cut) + Suffix(p1, cut))
  }

  /** Crossing the two children again at the same cut gives back the parents. */
  lemma CrossoverInvolution(p1: Route, p2: Route, cut: nat)
    requires |p1| == |p2| && cut <= |p1|
    ensures Crossover(Crossover(p1, p2, cut).0, Crossover(p1, p2, cut).1, cut) == (p1, p2)
  {
    var (c1, c2) := Crossover(p1, p2, cut);
    var (d1, d2) := Crossover(c1, c2, cut);
    assert d1 == p1;
    assert d2 == p2;
  }

  /** With a cut in `[1, numWaypoints]`, crossover of valid routes yields
      valid routes: the length is kept, the start comes from the parent
      providing the prefix, the end from the one providing the suffix. */
  lemma CrossoverKeepsShape(cfg: Config, p1: Route, p2: Route, cut: nat)
    requires ValidRoute(p1, cfg) && ValidRoute(p2, cfg)
    requires 1 <= cut <= cfg.numWaypoints
    ensures ValidRoute(Crossover(p1, p2, cut).0, cfg)
    ensures ValidRoute(Crossover(p1, p2, cut).1, cfg)
  {
    var (c1, c2) := Crossover(p1, p2, cut);
    assert c1[0] == p1[0] && c2[0] == p2[0];
    forall i | 0 < i < |c1| - 1
      ensures InDomain(c1[i]) && InDomain(c2[i])
    {
      assert InDomain(p1[i]) && InDomain(p2[i]);
    }
  }

  /** The cut never exceeds `numWaypoints`, so the last interior waypoint of
      the first child always comes from the second parent (and vice versa). */
  lemma CrossoverLastInteriorFromOtherParent(cfg: Config, p1: Route, p2: Route, cut: nat)
    requires WellShaped(p1, cfg) && WellShaped(p2, cfg)
    requires 1 <= cut <= cfg.numWaypoints
    ensures Crossover(p1, p2, cut).0[cfg.numWaypoints] == p2[cfg.numWaypoints]
    ensures Crossover(p1, p2, cut).1[cfg.numWaypoints] == p1[cfg.numWaypoints]
  {
  }

  /** The program's default of one waypoint admits only the cut 1, and
      crossover swaps the single interior waypoint. */
  lemma CrossoverSingleWaypointSwaps(p1: Route, p2: Route)
    requires |p1| == 3 && |p2| == 3
    ensures Crossover(p1, p2, 1).0 == [p1[0], p2[1], p2[2]]
    ensures Crossover(p1, p2, 1).1 == [p2[0], p1[1], p1[2]]
  {
  }

  /** `mutate`: if the coin falls below the rate, an index `k` is drawn
      from `[1, numWaypoints]` and replaced by the fresh point. Drawing from
      an empty range is the `ValueError` of `randint`; indexing past the end
      is the `IndexError` of the item assignment. */
  function Mutate(route: Route, coin: real, rate: real, numWaypoints: nat, k: nat, newPoint: Point): (r: Result<Route>)
    ensures rate <= coin ==> r == Success(route)
    ensures coin < rate && numWaypoints == 0 ==> r == Failure(EmptyRange)
    ensures coin < rate && numWaypoints > 0 ==> (r.Failure? <==> |route| <= k)
    ensures r.Failure? && numWaypoints > 0 ==> r.error == IndexOutOfRange
    ensures r.Success? ==> |r.value| == |route|
    ensures r.Success? && coin < rate ==> r.value[k] == newPoint
    ensures r.Success? ==> forall i :: 0 <= i < |route| && i != k ==> r.value[i] == route[i]
  {
    if coin < rate then
      if numWaypoints == 0 then Failure(EmptyRange)
      else if k < |route| then Success(route[k := newPoint])
      else Failure(IndexOutOfRange)
    else Success(route)
  }

  /** The positions at which two routes of equal length differ. */
  function Changed(a: Route, b: Route): set<nat>
    requires |a| == |b|
  {
    set i: nat | i < |a| && a[i] != b[i]
  }

  /** Mutation of a valid route at an index in `[1, numWaypoints]` with a
      fresh point from the domain succeeds, keeps the route valid, and
      changes at most one position, which is interior. */
  lemma MutateChangesAtMostOneInterior(cfg: Config, route: Route, coin: real, k: nat, newPoint: Point)
    requires ValidRoute(route, cfg)
    requires 1 <= k <= cfg.numWaypoints && InDomain(newPoint)
    ensures Mutate(route, coin, cfg.mutationRate, cfg.numWaypoints, k, newPoint).Success?
    ensures ValidRoute(Mutate(route, coin, cfg.mutationRate, cfg.numWaypoints, k, newPoint).value, cfg)
    ensures Changed(route, Mutate(route, coin, cfg.mutationRate, cfg.numWaypoints, k, newPoint).value) <= {k}
  {
  }

  /** With mutation rate zero (and a coin from `random.random()`, which is
      never negative) no route is ever changed. */
  lemma ZeroRateNeverMutates(route: Route, coin: real, numWaypoints: nat, k: nat, newPoint: Point)
    requires 0.0 <= coin
    ensures Mutate(route, coin, 0.0, numWaypoints, k, newPoint) == Success(route)
  {
  }
}
