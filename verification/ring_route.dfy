/**
 * `lazyman.core.model.RingRoute`: the paths of an open ring with the two
 * points where the chain ends.  The path distance is a parameter.
 */
module RingRoutes {
  import opened Common
  import opened Edges
  import Order
  import Rings

  /** A route: the ring's number, the path joining its two ends, and its paths. */
  datatype RingRoute = RingRoute(ring: int, ends: Edge, paths: seq<Edge>)

  /** `RingRoute(ring, ends)`: a route with the given ends and no paths yet. */
  function WithEnds(ring: int, ends: Edge): (rr: RingRoute)
    ensures rr.ring == ring && rr.ends == ends && rr.paths == []
  {
    RingRoute(ring, ends, [])
  }

  /** The endpoint of `e` that `nb` does not have, A before B. */
  function FreeEnd(e: Edge, nb: Edge): (r: Option<int>)
    ensures r.Some? <==> !HasPoint(nb, e.a) || !HasPoint(nb, e.b)
    ensures r.Some? ==> HasPoint(e, r.value) && !HasPoint(nb, r.value)
    ensures r.Some? && !HasPoint(nb, e.a) ==> r.value == e.a
  {
    if !HasPoint(nb, e.a) then Some(e.a)
    else if !HasPoint(nb, e.b) then Some(e.b)
    else None
  }

  /**
   * `RingRoute(ring)`: the start is the end of the first path not on the
   * second, the end that of the last path not on the one before.  The list
   * is shared with the ring.  A ring of one path fails reading the second;
   * an empty ring, or one where either end is not found, throws.
   */
  function FromRing(r: Rings.Ring): (res: Result<RingRoute>)
    ensures res.Ok? <==>
      (|r.paths| >= 2 &&
       FreeEnd(r.paths[0], r.paths[1]).Some? && FreeEnd(r.paths[|r.paths| - 1], r.paths[|r.paths| - 2]).Some?)
    ensures |r.paths| == 1 ==> res == Fail(IndexOutOfBounds)
    ensures res.Fail? && |r.paths| != 1 ==> res.error == Runtime
    ensures res.Ok? ==> res.value.ring == r.number && res.value.paths == r.paths
    ensures res.Ok? ==> HasPoint(r.paths[0], res.value.ends.a) && !HasPoint(r.paths[1], res.value.ends.a)
    ensures res.Ok? ==> var n := |r.paths|;
      HasPoint(r.paths[n - 1], res.value.ends.b) && !HasPoint(r.paths[n - 2], res.value.ends.b)
  {
    var n := |r.paths|;
    if n == 0 then Fail(Runtime)
    else if n == 1 then Fail(IndexOutOfBounds)
    else
      match FreeEnd(r.paths[0], r.paths[1])
      case None => Fail(Runtime)
      case Some(ps) =>
        match FreeEnd(r.paths[n - 1], r.paths[n - 2])
        case None => Fail(Runtime)
        case Some(pe) => Ok(RingRoute(r.number, Edge(ps, pe), r.paths))
  }

  /**
   * For an open ring traced along distinct points, the route's ends are
   * the first and the last point of the chain.
   */
  lemma ChainEnds(r: Rings.Ring, v: seq<int>)
    requires |r.paths| >= 2 && Rings.Traces(r.paths, v) && Rings.Simple(v)
    ensures FromRing(r).Ok? && FromRing(r).value.ends == Edge(v[0], v[|v| - 1])
  {
    var n := |r.paths|;
    assert SameEdge(r.paths[0], Edge(v[0], v[1]));
    assert SameEdge(r.paths[1], Edge(v[1], v[2]));
    assert SameEdge(r.paths[n - 1], Edge(v[n - 1], v[n]));
    assert SameEdge(r.paths[n - 2], Edge(v[n - 2], v[n - 1]));
    assert v[0] != v[1] && v[0] != v[2] && v[n] != v[n - 1] && v[n] != v[n - 2];
  }

  /** `addPath(path)`: appends. */
  function AddPath(route: RingRoute, e: Edge): (rr: RingRoute)
    ensures rr.paths == route.paths + [e] && rr.ring == route.ring && rr.ends == route.ends
  {
    route.(paths := route.paths + [e])
  }

  /** The sum of the path distances, left to right as the loop adds them. */
  function Sum(s: seq<Edge>, dist: Edge -> real): real
  {
    if |s| == 0 then 0.0 else Sum(s[..|s| - 1], dist) + dist(s[|s| - 1])
  }

  /** The sum over two lists laid end to end is the sum of the sums. */
  lemma {:induction false} SumAppend(s: seq<Edge>, t: seq<Edge>, dist: Edge -> real)
    ensures Sum(s + t, dist) == Sum(s, dist) + Sum(t, dist)
    decreases |t|
  {
    if |t| == 0 {
      assert s + t == s;
    } else {
      var n := |t| - 1;
      assert (s + t)[..|s + t| - 1] == s + t[..n];
      assert (s + t)[|s + t| - 1] == t[n];
      SumAppend(s, t[..n], dist);
    }
  }

  /** `distance()`: the summed path distances; an empty route fails its state check. */
  function Distance(route: RingRoute, dist: Edge -> real): (r: Result<real>)
    ensures r.Ok? <==> |route.paths| > 0
    ensures r.Fail? ==> r.error == IllegalState
    ensures r.Ok? ==> r.value == Sum(route.paths, dist)
  {
    if |route.paths| == 0 then Fail(IllegalState) else Ok(Sum(route.paths, dist))
  }

  /** Appending a path adds its distance, and makes the distance defined. */
  lemma DistanceOfAddPath(route: RingRoute, e: Edge, dist: Edge -> real)
    ensures Distance(AddPath(route, e), dist) ==
      Ok(dist(e) + (if |route.paths| == 0 then 0.0 else Distance(route, dist).value))
  {
    SumAppend(route.paths, [e], dist);
    assert [e][..0] == [];
  }

  /**
   * `SortRoute.compare`: two nulls are equal, a route comes after null,
   * and two routes compare by the floor/ceiling step of their distance
   * difference; an empty route fails in `distance()`.
   */
  function SortRoute(o1: Option<RingRoute>, o2: Option<RingRoute>, dist: Edge -> real): (r: Result<int>)
    ensures r.Fail? <==> o1.Some? && o2.Some? && (|o1.value.paths| == 0 || |o2.value.paths| == 0)
    ensures r.Fail? ==> r.error == IllegalState
    ensures r.Ok? ==> r.value == Order.NullsFirst(Distances(o1, dist), Distances(o2, dist))
  {
    if o1.None? && o2.None? then Ok(0)
    else if o1.Some? && o2.None? then Ok(1)
    else if o1.None? then Ok(-1)
    else
      match Distance(o1.value, dist)
      case Fail(e) => Fail(e)
      case Ok(d1) =>
        match Distance(o2.value, dist)
        case Fail(e) => Fail(e)
        case Ok(d2) => Ok(Order.Step(d1 - d2))
  }

  /** The distance of a nullable route, as the comparator's key. */
  function Distances(o: Option<RingRoute>, dist: Edge -> real): Option<real>
  {
    if o.Some? then Some(Sum(o.value.paths, dist)) else None
  }

  /** The comparator fails both ways or neither, and swapping its arguments flips its sign. */
  lemma SortRouteAntisymmetric(o1: Option<RingRoute>, o2: Option<RingRoute>, dist: Edge -> real)
    ensures SortRoute(o1, o2, dist).Ok? <==> SortRoute(o2, o1, dist).Ok?
    ensures SortRoute(o1, o2, dist).Ok? ==>
      Sgn(SortRoute(o1, o2, dist).value) == -Sgn(SortRoute(o2, o1, dist).value)
  {
    Order.NullsFirstAntisymmetric(Distances(o1, dist), Distances(o2, dist));
  }
}
