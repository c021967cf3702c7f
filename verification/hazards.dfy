/** Hazard zones: strict containment of a point, the number of zones a route
    enters (the danger term of the fitness), and the zone list's
    append/undo stack discipline. */
module Hazards {
  import opened Types

  /** The zones the program starts with. */
  const InitialZones: seq<Zone> := [Zone(50.0, 50.0, 10.0), Zone(70.0, 30.0, 15.0)]

  /** Fitness added per zone the route enters. */
  const DangerWeight: real := 100.0

  function SquaredDistance(p: Point, cx: real, cy: real): real {
    (p.x - cx) * (p.x - cx) + (p.y - cy) * (p.y - cy)
  }

  /** `distance(p, centre) < radius`, compared on squares. Since a distance
      is never negative, this holds exactly when the radius is positive and
      the squared distance is below the squared radius. */
  predicate Inside(p: Point, z: Zone) {
    0.0 < z.radius && SquaredDistance(p, z.cx, z.cy) < z.radius * z.radius
  }

  /** Squaring both sides is faithful to the Euclidean test: for the
      non-negative square root `d` of the squared distance, `Inside` holds
      iff `d < radius`; in particular a point on the boundary is outside. */
  lemma InsideIsStrictDistance(p: Point, z: Zone, d: real)
    requires 0.0 <= d && d * d == SquaredDistance(p, z.cx, z.cy)
    ensures Inside(p, z) <==> d < z.radius
  {
    var r := z.radius;
    if d < r {
      var u, v := r - d, r + d;
      assert u * v > 0.0;
      assert u * v == r * r - d * d;
    } else if 0.0 < r {
      var u, v := d - r, d + r;
      assert u * v >= 0.0;
      assert u * v == d * d - r * r;
    }
  }

  /** Some point of the route, endpoints included, lies inside the zone. */
  predicate Enters(route: Route, z: Zone) {
    exists i :: 0 <= i < |route| && Inside(route[i], z)
  }

  /** The danger term: one per zone of the list that the route enters,
      however many of its points lie inside that zone. */
  function HazardCount(route: Route, zones: seq<Zone>): (n: nat)
    ensures n <= |zones|
    ensures n == 0 <==> forall j :: 0 <= j < |zones| ==> !Enters(route, zones[j])
  {
    if |zones| == 0 then 0
    else
      var n' := HazardCount(route, zones[..|zones| - 1]);
      assert forall j :: 0 <= j < |zones| - 1 ==> zones[..|zones| - 1][j] == zones[j];
      n' + if Enters(route, zones[|zones| - 1]) then 1 else 0
  }

  /** The indices of the zones the route enters. */
  function EnteredZones(route: Route, zones: seq<Zone>): set<nat> {
    set j: nat | j < |zones| && Enters(route, zones[j])
  }

  /** Reference reading of the danger term: the number of distinct zone
      entries the route enters. */
  lemma {:induction false} HazardCountCountsEnteredZones(route: Route, zones: seq<Zone>)
    ensures HazardCount(route, zones) == |EnteredZones(route, zones)|
  {
    if |zones| > 0 {
      var init := zones[..|zones| - 1];
      HazardCountCountsEnteredZones(route, init);
      var last := |zones| - 1;
      var before := EnteredZones(route, init);
      assert forall j :: 0 <= j < |init| ==> init[j] == zones[j];
      if Enters(route, zones[last]) {
        assert EnteredZones(route, zones) == before + {last};
        assert last !in before;
      } else {
        assert EnteredZones(route, zones) == before;
      }
    }
  }

  /** Appending a zone adds exactly its own contribution. */
  lemma HazardCountAppend(route: Route, zones: seq<Zone>, z: Zone)
    ensures HazardCount(route, zones + [z]) ==
            HazardCount(route, zones) + if Enters(route, z) then 1 else 0
  {
    assert (zones + [z])[..|zones|] == zones;
  }

  /** The count depends only on which zones the route enters: two routes
      entering the same zones score the same. */
  lemma {:induction false} HazardCountDependsOnlyOnEntries(r1: Route, r2: Route, zones: seq<Zone>)
    requires forall j :: 0 <= j < |zones| ==> (Enters(r1, zones[j]) <==> Enters(r2, zones[j]))
    ensures HazardCount(r1, zones) == HazardCount(r2, zones)
  {
    if |zones| > 0 {
      var init := zones[..|zones| - 1];
      assert forall j :: 0 <= j < |init| ==> init[j] == zones[j];
      HazardCountDependsOnlyOnEntries(r1, r2, init);
    }
  }

  /** Inserting a waypoint that lies outside every zone leaves the count
      unchanged. */
  lemma InsertSafeWaypoint(route: Route, i: nat, p: Point, zones: seq<Zone>)
    requires i <= |route|
    requires forall j :: 0 <= j < |zones| ==> !Inside(p, zones[j])
    ensures HazardCount(route[..i] + [p] + route[i..], zones) == HazardCount(route, zones)
  {
    var longer := route[..i] + [p] + route[i..];
    forall j | 0 <= j < |zones|
      ensures Enters(longer, zones[j]) <==> Enters(route, zones[j])
    {
      InsertOutsidePointKeepsEntry(route, i, p, zones[j]);
    }
    HazardCountDependsOnlyOnEntries(longer, route, zones);
  }

  /** One zone at a time: a point outside `z` changes nothing about whether
      the route enters `z`. */
  lemma InsertOutsidePointKeepsEntry(route: Route, i: nat, p: Point, z: Zone)
    requires i <= |route| && !Inside(p, z)
    ensures Enters(route[..i] + [p] + route[i..], z) <==> Enters(route, z)
  {
    var longer := route[..i] + [p] + route[i..];
    assert |longer| == |route| + 1;
    if Enters(route, z) {
      var k :| 0 <= k < |route| && Inside(route[k], z);
      if k < i {
        assert longer[k] == route[k];
      } else {
        assert longer[k + 1] == route[k];
      }
    }
    if Enters(longer, z) {
      var k :| 0 <= k < |longer| && Inside(longer[k], z);
      if k < i {
        assert longer[k] == route[k];
      } else if k > i {
        assert longer[k] == route[k - 1];
      }
    }
  }

  /** A zone entered by several points still counts once: repeating the
      whole route changes nothing. */
  lemma RepeatedPointsCountOnce(route: Route, zones: seq<Zone>)
    ensures HazardCount(route + route, zones) == HazardCount(route, zones)
  {
    var twice := route + route;
    forall j | 0 <= j < |zones|
      ensures Enters(twice, zones[j]) <==> Enters(route, zones[j])
    {
      if Enters(route, zones[j]) {
        var k :| 0 <= k < |route| && Inside(route[k], zones[j]);
        assert twice[k] == route[k];
      }
      if Enters(twice, zones[j]) {
        var k :| 0 <= k < |twice| && Inside(twice[k], zones[j]);
        if k < |route| {
          assert route[k] == twice[k];
        } else {
          assert route[k - |route|] == twice[k];
        }
      }
    }
    HazardCountDependsOnlyOnEntries(twice, route, zones);
  }

  /** The fitness of a route: its travel cost (distance plus the wind time
      penalty, kept abstract) plus 100 for every zone the route enters. */
  function Fitness(travel: Route -> real, zones: seq<Zone>, route: Route): (f: real)
    ensures f == travel(route) + DangerWeight * (|EnteredZones(route, zones)| as real)
    ensures EnteredZones(route, zones) == {} ==> f == travel(route)
  {
    HazardCountCountsEnteredZones(route, zones);
    travel(route) + DangerWeight * (HazardCount(route, zones) as real)
  }

  /** The danger term is bounded by the number of zones. */
  lemma FitnessDangerBounds(travel: Route -> real, zones: seq<Zone>, route: Route)
    ensures travel(route) <= Fitness(travel, zones, route)
    ensures Fitness(travel, zones, route) <= travel(route) + DangerWeight * (|zones| as real)
  {
    var n := HazardCount(route, zones);
    assert n as real <= |zones| as real;
  }

  /** Adding a hazard zone never makes any route look better. */
  lemma AddZoneNeverLowersFitness(travel: Route -> real, zones: seq<Zone>, z: Zone, route: Route)
    ensures Fitness(travel, zones, route) <= Fitness(travel, AddZone(zones, z), route)
    ensures HazardCount(route, zones) <= HazardCount(route, AddZone(zones, z))
  {
    HazardCountAppend(route, zones, z);
  }

  /** Adding a zone: the new zone goes on top of the stack. */
  function AddZone(zones: seq<Zone>, z: Zone): (r: seq<Zone>)
    ensures |r| == |zones| + 1 && r[|zones|] == z
    ensures forall j :: 0 <= j < |zones| ==> r[j] == zones[j]
  {
    zones + [z]
  }

  /** Undo: drop the most recently added zone; an empty list stays empty. */
  function UndoZone(zones: seq<Zone>): (r: seq<Zone>)
    ensures |zones| == 0 ==> r == zones
    ensures |zones| > 0 ==> |r| == |zones| - 1
    ensures forall j :: 0 <= j < |r| ==> r[j] == zones[j]
  {
    if |zones| > 0 then zones[..|zones| - 1] else zones
  }

  /** Undo is the inverse of add. */
  lemma UndoAfterAdd(zones: seq<Zone>, z: Zone)
    ensures UndoZone(AddZone(zones, z)) == zones
  {
  }

  /** Undo removes exactly the top of the stack: re-adding it restores the list. */
  lemma AddAfterUndo(zones: seq<Zone>)
    requires |zones| > 0
    ensures AddZone(UndoZone(zones), zones[|zones| - 1]) == zones
  {
  }

  /** Undoing a zone never raises a route's danger term. */
  lemma UndoNeverRaisesHazardCount(route: Route, zones: seq<Zone>)
    ensures HazardCount(route, UndoZone(zones)) <= HazardCount(route, zones)
  {
  }
}
