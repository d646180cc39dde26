/**
 * Track resampling (geo.py). A track is a sequence of waypoints; the
 * resampler walks it, accumulating geodesic distance, and emits a synthetic
 * point every `distance` metres along the track.
 *
 * The geodesy of the gpxpy library (distance, LocationDelta and Point.move)
 * and geo.bearing are parameters of the model: only the facts stated by
 * `DistanceNonNegative`, `MoveBackMeasures` and `MoveKeepsPayload` are
 * assumed about them.
 */
module Geo {
  import opened Wrappers

  /** A waypoint: latitude and longitude in degrees, optional elevation and
      timestamp (a timestamp is an opaque integer here). */
  datatype Point = Point(latitude: real, longitude: real, elevation: Option<real>, time: Option<int>)

  /** gpxpy.geo.LocationDelta(distance=..., angle=...): a displacement of
      `distance` metres (negative: backwards) along compass bearing `angle`. */
  datatype LocationDelta = LocationDelta(distance: real, angle: real)

  /** gpxpy.geo.distance between two points (elevation included). */
  type Distance = (Point, Point) -> real
  /** geo.bearing(point1, point2). */
  type Bearing = (Point, Point) -> real
  /** A copy of the point moved by the delta (copy.deepcopy followed by Point.move). */
  type Move = (Point, LocationDelta) -> Point

  ghost predicate DistanceNonNegative(dist: Distance)
  {
    forall p, q :: dist(p, q) >= 0.0
  }

  /** Moving a point back by -x metres (x <= 0) gives a point at distance -x
      from where it started: the one geometric fact the resampler relies on. */
  ghost predicate MoveBackMeasures(dist: Distance, move: Move)
  {
    forall p, ld: LocationDelta :: ld.distance <= 0.0 ==> dist(move(p, ld), p) == -ld.distance
  }

  /** Point.move only changes latitude and longitude. */
  ghost predicate MoveKeepsPayload(move: Move)
  {
    forall p, ld :: move(p, ld).elevation == p.elevation && move(p, ld).time == p.time
  }

  /** A planar model of the abstract geodesy (distance in latitude only),
      showing that the three assumptions above can hold together. */
  function PlanarDistance(p: Point, q: Point): real
  {
    if p.latitude >= q.latitude then p.latitude - q.latitude else q.latitude - p.latitude
  }

  function PlanarMove(p: Point, ld: LocationDelta): Point
  {
    p.(latitude := p.latitude + ld.distance)
  }

  lemma GeodesyIsConsistent()
    ensures DistanceNonNegative(PlanarDistance)
    ensures MoveBackMeasures(PlanarDistance, PlanarMove)
    ensures MoveKeepsPayload(PlanarMove)
  {
  }

  /** The raw index at which the walk resumes after the output point taken
      from raw index `o`: the seed (index 0) resumes at 1, a synthetic point
      taken from index o > 0 resumes at o itself (the loop does not advance). */
  function Resume(o: nat): nat
  {
    if o == 0 then 1 else o
  }

  /** The value of the accumulator `d` once the walk that resumed at raw index
      `s` after emitting `e` has measured the segment ending at raw point `b`.
      A segment starts at the last emitted point while `d` is still 0, and at
      the previous raw point otherwise. */
  function Travelled(points: seq<Point>, dist: Distance, e: Point, s: nat, b: nat): real
    requires 1 <= s <= b < |points|
    decreases b - s
  {
    if b == s then dist(e, points[b])
    else
      var d := Travelled(points, dist, e, s, b - 1);
      d + dist(if d == 0.0 then e else points[b - 1], points[b])
  }

  /** The starting point of the segment that ends at raw point `b`. */
  function SegmentStart(points: seq<Point>, dist: Distance, e: Point, s: nat, b: nat): Point
    requires 1 <= s <= b < |points|
  {
    if b == s || Travelled(points, dist, e, s, b - 1) == 0.0 then e else points[b - 1]
  }

  /** No emission point is reached while measuring the segments ending at raw
      points s .. hi-1. */
  ghost predicate Quiet(points: seq<Point>, distance: real, dist: Distance, e: Point, s: nat, hi: nat)
    requires 1 <= s && hi <= |points|
  {
    forall b :: s <= b < hi ==> Travelled(points, dist, e, s, b) < distance
  }

  /** Output point `next`, taken from raw index `o'`, is the synthetic point
      that follows output point `e`, taken from raw index `o`: the walk
      resumed after `e` stays quiet until it reaches raw point o', where the
      accumulated distance D first reaches `distance`, and `next` is raw point
      o' moved back by D - distance along the bearing of the segment just
      measured. */
  ghost predicate Follows(points: seq<Point>, distance: real, dist: Distance, bearing: Bearing, move: Move,
                          e: Point, o: nat, next: Point, o': nat)
  {
    var s := Resume(o);
    s <= o' < |points| &&
    Quiet(points, distance, dist, e, s, o') &&
    Travelled(points, dist, e, s, o') >= distance &&
    next == move(points[o'], LocationDelta(-(Travelled(points, dist, e, s, o') - distance),
                                           bearing(SegmentStart(points, dist, e, s, o'), points[o'])))
  }

  /** Output point k+1 of `r` follows output point k (see Follows). */
  ghost predicate FollowsAt(points: seq<Point>, distance: real, dist: Distance, bearing: Bearing, move: Move,
                            r: seq<Point>, origin: seq<nat>, k: nat)
    requires k + 1 < |r| == |origin|
  {
    Follows(points, distance, dist, bearing, move, r[k], origin[k], r[k + 1], origin[k + 1])
  }

  /** The accumulator never goes negative. */
  lemma {:induction false} TravelledNonNegative(points: seq<Point>, dist: Distance, e: Point, s: nat, b: nat)
    requires 1 <= s <= b < |points|
    requires DistanceNonNegative(dist)
    ensures Travelled(points, dist, e, s, b) >= 0.0
    decreases b - s
  {
    if b > s {
      TravelledNonNegative(points, dist, e, s, b - 1);
    }
  }

  /** Without a positive spacing the emission test `d >= distance` holds at
      every raw point, so the loop emits forever and never advances. */
  lemma {:induction false} SpacingMustBePositive(points: seq<Point>, distance: real, dist: Distance, e: Point, s: nat, b: nat)
    requires distance <= 0.0
    requires 1 <= s <= b < |points|
    requires DistanceNonNegative(dist)
    ensures Travelled(points, dist, e, s, b) >= distance
    ensures !Quiet(points, distance, dist, e, s, b + 1)
  {
    TravelledNonNegative(points, dist, e, s, b);
  }

  /** The distance the next loop iteration will have accumulated at raw point i. */
  ghost function Pending(points: seq<Point>, dist: Distance, last: Point, d: real, i: nat): real
    requires 1 <= i < |points|
  {
    if d == 0.0 then dist(last, points[i]) else d + dist(points[i - 1], points[i])
  }

  lemma ZeroProduct(a: real, distance: real)
    requires distance > 0.0 && a * distance == 0.0
    ensures a == 0.0
  {
  }

  /** Measured in units of `distance`, moving back by x - distance takes
      exactly one unit off what remains to be walked. */
  lemma QuotientStep(x: real, distance: real)
    requires distance > 0.0
    ensures (x - distance) / distance == x / distance - 1.0
  {
    var q, r := x / distance, (x - distance) / distance;
    assert q * distance == x && r * distance == x - distance;
    ZeroProduct(r - (q - 1.0), distance);
  }

  lemma QuotientNonNegative(x: real, distance: real)
    requires distance > 0.0 && x >= 0.0
    ensures x / distance >= 0.0
  {
  }

  /** The loop state of interpolate_distance once the seed is out (i >= 1):
      `r` holds the points emitted so far, taken from raw indices `origin`,
      and `d` is what has been measured since the last of them. */
  ghost predicate Resampling(points: seq<Point>, distance: real, dist: Distance, bearing: Bearing, move: Move,
                             r: seq<Point>, origin: seq<nat>, d: real, i: nat)
  {
    1 <= i <= |points| && |origin| == |r| >= 1 &&
    r[0] == points[0] && origin[0] == 0 && d >= 0.0 &&
    (forall k :: 0 <= k < |r| - 1 ==> FollowsAt(points, distance, dist, bearing, move, r, origin, k)) &&
    var e, s := r[|r| - 1], Resume(origin[|origin| - 1]);
    s <= i &&
    (i == s ==> d == 0.0) &&
    (i > s ==> d == Travelled(points, dist, e, s, i - 1)) &&
    Quiet(points, distance, dist, e, s, i)
  }

  /** Measuring the segment ending at raw point i adds to `d` exactly what
      Travelled says, starting where SegmentStart says. */
  lemma MeasureStep(points: seq<Point>, distance: real, dist: Distance, bearing: Bearing, move: Move,
                    r: seq<Point>, origin: seq<nat>, d: real, i: nat)
    requires Resampling(points, distance, dist, bearing, move, r, origin, d, i) && i < |points|
    ensures var e, s := r[|r| - 1], Resume(origin[|origin| - 1]);
      s <= i &&
      SegmentStart(points, dist, e, s, i) == (if d == 0.0 then e else points[i - 1]) &&
      Travelled(points, dist, e, s, i) == d + dist(SegmentStart(points, dist, e, s, i), points[i]) &&
      Travelled(points, dist, e, s, i) == Pending(points, dist, e, d, i)
  {
  }

  /** Emitting a synthetic point keeps the loop state. */
  lemma EmitStep(points: seq<Point>, distance: real, dist: Distance, bearing: Bearing, move: Move,
                 r: seq<Point>, origin: seq<nat>, d: real, i: nat, p1: Point, d': real, x: Point)
    requires Resampling(points, distance, dist, bearing, move, r, origin, d, i) && i < |points|
    requires p1 == SegmentStart(points, dist, r[|r| - 1], Resume(origin[|origin| - 1]), i)
    requires d' == Travelled(points, dist, r[|r| - 1], Resume(origin[|origin| - 1]), i)
    requires d' >= distance
    requires x == move(points[i], LocationDelta(-(d' - distance), bearing(p1, points[i])))
    ensures Resampling(points, distance, dist, bearing, move, r + [x], origin + [i], 0.0, i)
  {
    assert Follows(points, distance, dist, bearing, move, r[|r| - 1], origin[|origin| - 1], x, i);
    ChainAppend(points, distance, dist, bearing, move, r, origin, x, i);
  }

  /** Appending a point that follows the last one extends a chain of emissions. */
  lemma ChainAppend(points: seq<Point>, distance: real, dist: Distance, bearing: Bearing, move: Move,
                    r: seq<Point>, origin: seq<nat>, x: Point, o: nat)
    requires |r| == |origin| >= 1
    requires forall k :: 0 <= k < |r| - 1 ==> FollowsAt(points, distance, dist, bearing, move, r, origin, k)
    requires Follows(points, distance, dist, bearing, move, r[|r| - 1], origin[|origin| - 1], x, o)
    ensures forall k :: 0 <= k < |r| ==> FollowsAt(points, distance, dist, bearing, move, r + [x], origin + [o], k)
  {
    var r', origin' := r + [x], origin + [o];
    forall k | 0 <= k < |r|
      ensures FollowsAt(points, distance, dist, bearing, move, r', origin', k)
    {
      assert r'[k] == r[k] && origin'[k] == origin[k];
      if k < |r| - 1 {
        assert FollowsAt(points, distance, dist, bearing, move, r, origin, k);
        assert r'[k + 1] == r[k + 1] && origin'[k + 1] == origin[k + 1];
      } else {
        assert r'[k + 1] == x && origin'[k + 1] == o;
      }
    }
  }

  /** After an emission exactly one `distance` less is left to walk to raw
      point i: the termination argument of the loop. */
  lemma EmitProgress(points: seq<Point>, distance: real, dist: Distance, move: Move,
                     i: nat, d': real, x: Point, pending: real, angle: real)
    requires 1 <= i < |points|
    requires MoveBackMeasures(dist, move) && distance > 0.0
    requires d' == pending && d' >= distance
    requires x == move(points[i], LocationDelta(-(d' - distance), angle))
    ensures Pending(points, dist, x, 0.0, i) == pending - distance
    ensures 0.0 <= Pending(points, dist, x, 0.0, i) / distance == pending / distance - 1.0
  {
    assert Pending(points, dist, x, 0.0, i) == d' - distance;
    QuotientStep(d', distance);
    QuotientNonNegative(d' - distance, distance);
  }

  /** Advancing to the next raw point keeps the loop state. */
  lemma AdvanceStep(points: seq<Point>, distance: real, dist: Distance, bearing: Bearing, move: Move,
                    r: seq<Point>, origin: seq<nat>, d: real, i: nat, d': real)
    requires Resampling(points, distance, dist, bearing, move, r, origin, d, i) && i < |points|
    requires DistanceNonNegative(dist)
    requires d' == Travelled(points, dist, r[|r| - 1], Resume(origin[|origin| - 1]), i)
    requires d' < distance
    ensures Resampling(points, distance, dist, bearing, move, r, origin, d', i + 1)
  {
    TravelledNonNegative(points, dist, r[|r| - 1], Resume(origin[|origin| - 1]), i);
  }

  /** The spacing of a synthetic point: what was walked from the previous
      output point, less the distance from the synthetic point forward to
      the raw point it was taken from, is exactly `distance`. */
  lemma SyntheticSpacing(points: seq<Point>, distance: real, dist: Distance, bearing: Bearing, move: Move,
                         r: seq<Point>, origin: seq<nat>, k: nat)
    requires MoveBackMeasures(dist, move)
    requires k + 1 < |r| == |origin|
    requires FollowsAt(points, distance, dist, bearing, move, r, origin, k)
    ensures origin[k + 1] < |points|
    ensures Travelled(points, dist, r[k], Resume(origin[k]), origin[k + 1]) - dist(r[k + 1], points[origin[k + 1]]) == distance
  {
  }

  /** Along a chain of emissions the raw indices never decrease, and every
      point after the seed comes from a raw index of at least 1. */
  lemma {:induction false} ChainOrigins(points: seq<Point>, distance: real, dist: Distance, bearing: Bearing, move: Move,
                                        r: seq<Point>, origin: seq<nat>, k: nat, k': nat)
    requires |r| == |origin| && k <= k' < |r|
    requires forall j :: 0 <= j < |r| - 1 ==> FollowsAt(points, distance, dist, bearing, move, r, origin, j)
    ensures origin[k] <= origin[k']
    ensures k < k' ==> 1 <= origin[k'] < |points|
    decreases k' - k
  {
    if k < k' {
      assert FollowsAt(points, distance, dist, bearing, move, r, origin, k' - 1);
      ChainOrigins(points, distance, dist, bearing, move, r, origin, k, k' - 1);
    }
  }

  /** The `else` clause of the loop: once the walk has reached the end of the
      track, appending the last raw point gives the resampler's result. */
  lemma FinishWalk(points: seq<Point>, distance: real, dist: Distance, bearing: Bearing, move: Move,
                   r: seq<Point>, o: seq<nat>, d: real, evenPoints: seq<Point>, origin: seq<nat>)
    requires Resampling(points, distance, dist, bearing, move, r, o, d, |points|)
    requires MoveKeepsPayload(move)
    requires evenPoints == r + [points[|points| - 1]] && origin == o + [|points| - 1]
    ensures |evenPoints| >= 2 && |origin| == |evenPoints|
    ensures evenPoints[0] == points[0] && evenPoints[|evenPoints| - 1] == points[|points| - 1]
    ensures |points| == 1 ==> evenPoints == [points[0], points[0]]
    ensures origin[0] == 0 && origin[|origin| - 1] == |points| - 1
    ensures forall k, k' :: 0 <= k <= k' < |origin| ==> origin[k] <= origin[k'] < |points|
    ensures forall k :: 0 < k < |origin| - 1 ==> origin[k] >= 1
    ensures forall k :: 0 <= k < |evenPoints| ==>
      evenPoints[k].elevation == points[origin[k]].elevation && evenPoints[k].time == points[origin[k]].time
    ensures forall k :: 0 <= k < |evenPoints| - 2 ==>
      FollowsAt(points, distance, dist, bearing, move, evenPoints, origin, k)
    ensures var k := |evenPoints| - 2;
      Quiet(points, distance, dist, evenPoints[k], Resume(origin[k]), |points|)
  {
    forall k, k' | 0 <= k <= k' < |origin|
      ensures origin[k] <= origin[k'] < |points|
    {
      if k' < |o| {
        ChainOrigins(points, distance, dist, bearing, move, r, o, k, k');
        ChainOrigins(points, distance, dist, bearing, move, r, o, 0, k');
      } else if k < |o| {
        ChainOrigins(points, distance, dist, bearing, move, r, o, 0, k);
      }
    }
    forall k | 0 < k < |origin| - 1
      ensures origin[k] >= 1
    {
      ChainOrigins(points, distance, dist, bearing, move, r, o, 0, k);
    }
    forall k | 0 <= k < |evenPoints|
      ensures evenPoints[k].elevation == points[origin[k]].elevation && evenPoints[k].time == points[origin[k]].time
    {
      if 0 < k < |r| {
        assert FollowsAt(points, distance, dist, bearing, move, r, o, k - 1);
      }
    }
    forall k | 0 <= k < |evenPoints| - 2
      ensures FollowsAt(points, distance, dist, bearing, move, evenPoints, origin, k)
    {
      assert FollowsAt(points, distance, dist, bearing, move, r, o, k);
      assert evenPoints[k] == r[k] && evenPoints[k + 1] == r[k + 1] && origin[k] == o[k] && origin[k + 1] == o[k + 1];
    }
  }

  /**
   * geo.interpolate_distance: evenly redistribute the points of a track every
   * `distance` metres. The first and last raw points are always kept;
   * between them every point is a synthetic copy of a raw point moved back
   * along the last measured segment. `origin[k]` is the raw index output
   * point k was taken from.
   */
  method InterpolateDistance(points: seq<Point>, distance: real, dist: Distance, bearing: Bearing, move: Move)
    returns (evenPoints: seq<Point>, ghost origin: seq<nat>)
    requires |points| > 0
    requires distance > 0.0 || |points| == 1
    requires DistanceNonNegative(dist) && MoveBackMeasures(dist, move) && MoveKeepsPayload(move)
    ensures |evenPoints| >= 2 && |origin| == |evenPoints|
    ensures evenPoints[0] == points[0] && evenPoints[|evenPoints| - 1] == points[|points| - 1]
    ensures |points| == 1 ==> evenPoints == [points[0], points[0]]
    ensures origin[0] == 0 && origin[|origin| - 1] == |points| - 1
    ensures forall k, k' :: 0 <= k <= k' < |origin| ==> origin[k] <= origin[k'] < |points|
    ensures forall k :: 0 < k < |origin| - 1 ==> origin[k] >= 1
    ensures forall k :: 0 <= k < |evenPoints| ==>
      evenPoints[k].elevation == points[origin[k]].elevation && evenPoints[k].time == points[origin[k]].time
    ensures forall k :: 0 <= k < |evenPoints| - 2 ==>
      FollowsAt(points, distance, dist, bearing, move, evenPoints, origin, k)
    ensures var k := |evenPoints| - 2;
      Quiet(points, distance, dist, evenPoints[k], Resume(origin[k]), |points|)
  {
    var d: real := 0.0;
    var i: nat := 0;
    evenPoints := [];
    origin := [];
    while i < |points|
      invariant i <= |points|
      invariant i == 0 ==> evenPoints == [] && origin == [] && d == 0.0
      invariant i > 0 ==> Resampling(points, distance, dist, bearing, move, evenPoints, origin, d, i)
      decreases |points| - i,
        if 0 < i < |points| then Pending(points, dist, evenPoints[|evenPoints| - 1], d, i) / distance else 0.0
    {
      if i == 0 {
        evenPoints := evenPoints + [points[0]];
        origin := origin + [0];
        i := i + 1;
        continue;
      }

      MeasureStep(points, distance, dist, bearing, move, evenPoints, origin, d, i);
      ghost var r0, o0, d0 := evenPoints, origin, d;
      var p1 := if d == 0.0 then evenPoints[|evenPoints| - 1] else points[i - 1];
      var p2 := points[i];
      d := d + dist(p1, p2);

      if d >= distance {
        var brng := bearing(p1, p2);
        var ld := LocationDelta(-(d - distance), brng);
        var p2Copy := move(p2, ld);
        EmitStep(points, distance, dist, bearing, move, r0, o0, d0, i, p1, d, p2Copy);
        EmitProgress(points, distance, dist, move, i, d, p2Copy, Pending(points, dist, r0[|r0| - 1], d0, i), brng);
        evenPoints := evenPoints + [p2Copy];
        origin := origin + [i];
        d := 0.0;
      } else {
        AdvanceStep(points, distance, dist, bearing, move, evenPoints, origin, d0, i, d);
        i := i + 1;
      }
    }
    ghost var r0, o0 := evenPoints, origin;
    evenPoints := evenPoints + [points[|points| - 1]];
    origin := origin + [|points| - 1];
    FinishWalk(points, distance, dist, bearing, move, r0, o0, d, evenPoints, origin);
  }
}
