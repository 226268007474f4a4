/**
 * `salesman.core.model.OpenRing`: for an open ring, the routes through all
 * of its points between every pair of them.  Each candidate pair seeds a
 * fresh trial registry with the path joining it, the greedy iterator runs
 * over the ring's points until the registry settles, and the resulting
 * links are walked from one end of the pair.
 *
 * `iterator.run(point)` is not an overload of the `RunIterator` in this
 * model, so one pass of it over all points is a parameter.  The ring's
 * initial route and `getPoints` are those of the lazyman `RingRoute` and
 * `Ring`, the only ones with those members; `pathKey` is the endpoint-order
 * free key of a path.
 */
module OpenRings {
  import opened Common
  import opened Edges
  import SalesPath
  import opened SalesConnections
  import Rings
  import RingRoutes

  /** A pass over the registry keeps it well formed and only extends it. */
  ghost predicate Pass(pass: Connections -> Connections)
  {
    forall s :: Valid(s) ==> Valid(pass(s)) && Extends(s, pass(s))
  }

  /**
   * The fixed-point loop of `computeRoute`: a pass, then stop on closure,
   * or on a registry identical to the snapshot taken after the previous
   * pass.  The snapshot shares the registry's Connection objects, so the
   * second comparison always succeeds: the loop makes at most two passes.
   */
  method Settle(pass: Connections -> Connections, s: Connections) returns (t: Connections, passes: nat)
    requires Valid(s) && Pass(pass)
    ensures Valid(t) && Extends(s, t)
    ensures passes == 1 || passes == 2
    ensures passes == 1 <==> ReachedClosure(pass(s))
    ensures passes == 1 ==> t == pass(s)
    ensures passes == 2 ==> t == pass(pass(s))
  {
    var cur := s;
    var snapshot: Option<map<int, nat>> := None;
    passes := 0;
    while true
      invariant Valid(cur) && Extends(s, cur)
      invariant passes <= 1
      invariant passes == 0 ==> cur == s && snapshot.None?
      invariant passes == 1 ==> cur == pass(s) && !ReachedClosure(cur) && snapshot == Some(Copy(cur))
      decreases 2 - passes
    {
      var prev := cur;
      cur := pass(cur);
      ExtendsTransitive(s, prev, cur);
      passes := passes + 1;
      if ReachedClosure(cur) {
        break;
      }
      if snapshot.Some? {
        CopyStaysIdentical(prev, cur);
        if IsIdentical(snapshot.value, cur.refs, cur.heap) {
          break;
        }
      }
      snapshot := Some(Copy(cur));
    }
    t := cur;
  }

  /** The endpoints of a connection's paths. */
  function SlotEnds(c: Connection): set<int>
  {
    (if c.s0.Some? then {c.s0.value.path.edge.a, c.s0.value.path.edge.b} else {}) +
    (if c.s1.Some? then {c.s1.value.path.edge.a, c.s1.value.path.edge.b} else {})
  }

  /** The endpoints of every path the registry's objects hold. */
  function HeldEnds(heap: seq<Connection>): set<int>
  {
    if |heap| == 0 then {} else HeldEnds(heap[..|heap| - 1]) + SlotEnds(heap[|heap| - 1])
  }

  /** Each object's endpoints are among the held ones. */
  lemma {:induction false} InHeldEnds(heap: seq<Connection>, i: nat)
    requires i < |heap|
    ensures SlotEnds(heap[i]) <= HeldEnds(heap)
  {
    if i < |heap| - 1 {
      InHeldEnds(heap[..|heap| - 1], i);
    }
  }

  /** The path of a slot, null for an empty one. */
  function PathOf(o: Option<Held>): Option<SalesPath.Path>
  {
    if o.Some? then Some(o.value.path) else None
  }

  /**
   * The step of the route walk at a point's connection: the path in the
   * other slot than the one equal to `cp`, which may be null; `cp` itself
   * when neither slot holds it.
   */
  function Follow(c: Connection, cp: SalesPath.Path): (r: Option<SalesPath.Path>)
    ensures r.Some? && r.value != cp ==> r == PathOf(c.s0) || r == PathOf(c.s1)
    ensures !Holds(c.s0, cp) && !Holds(c.s1, cp) ==> r == Some(cp)
  {
    if Holds(c.s0, cp) then PathOf(c.s1)
    else if Holds(c.s1, cp) then PathOf(c.s0)
    else Some(cp)
  }

  /** No point is visited twice. */
  ghost predicate Distinct(s: seq<int>)
  {
    forall i, j :: 0 <= i < j < |s| ==> s[i] != s[j]
  }

  /** The points of a sequence. */
  function Elems(s: seq<int>): set<int>
  {
    set p | p in s
  }

  /** A slot path of a registered point has its ends among the held ones. */
  lemma SlotPathEnds(s: Connections, k: int, p: SalesPath.Path)
    requires Valid(s) && k in s.refs && (PathOf(Conn(s, k).s0) == Some(p) || PathOf(Conn(s, k).s1) == Some(p))
    ensures {p.edge.a, p.edge.b} <= HeldEnds(s.heap)
  {
    InHeldEnds(s.heap, s.refs[k]);
  }

  /**
   * The path the walk steps on to at `np`: by `Follow` at a registered
   * point, `cp` itself elsewhere.  Its ends are among the held ones.
   */
  function StepOn(s: Connections, np: int, cp: SalesPath.Path): (next: Option<SalesPath.Path>)
    requires Valid(s) && {cp.edge.a, cp.edge.b} <= HeldEnds(s.heap)
    ensures next.Some? ==> {next.value.edge.a, next.value.edge.b} <= HeldEnds(s.heap)
  {
    if np in s.refs then
      var next := Follow(Conn(s, np), cp);
      if next.Some? && next.value != cp then SlotPathEnds(s, np, next.value); next
      else next
    else Some(cp)
  }

  /** So does the path the walk starts along. */
  lemma OtherEnds(s: Connections, a: int, path: SalesPath.Path)
    requires Valid(s)
    ensures a in s.refs && Other(Conn(s, a), path).Some? ==>
      var p := Other(Conn(s, a), path).value; {p.edge.a, p.edge.b} <= HeldEnds(s.heap)
  {
    if a in s.refs && Other(Conn(s, a), path).Some? {
      SlotPathEnds(s, a, Other(Conn(s, a), path).value);
    }
  }

  /**
   * The loop of the route walk: from `lp` along `cp` to its far end `np`;
   * stop at a point visited already; otherwise step on by `Follow` and, when
   * that gives a path, record `np` and the path.  A `cp` that misses `lp`
   * fails on the null far end.
   */
  function RouteWalk(s: Connections, lp: int, cp: Option<SalesPath.Path>, visits: seq<int>, added: seq<Edge>)
    : (res: Result<(seq<int>, seq<Edge>)>)
    requires Valid(s) && |visits| == |added| + 1 && lp == visits[|visits| - 1] && Distinct(visits)
    requires cp.Some? ==> {cp.value.edge.a, cp.value.edge.b} <= HeldEnds(s.heap)
    ensures Grows(res, visits, added)
    ensures res.Ok? && cp.Some? && |res.value.0| > |visits| ==> Target(cp.value.edge, lp) == Some(res.value.0[|visits|])
    decreases |HeldEnds(s.heap) - Elems(visits)|
  {
    if cp.None? then Ok((visits, added))
    else
      match Target(cp.value.edge, lp)
      case None => Fail(NullPointer)
      case Some(np) =>
        if np in visits then Ok((visits, added))
        else
          var next := StepOn(s, np, cp.value);
          if next.None? then Ok((visits, added))
          else
            Visit(visits, np, HeldEnds(s.heap));
            var w := RouteWalk(s, np, next, visits + [np], added + [next.value.edge]);
            ChainStep(w, visits, added, np, next.value.edge);
            assert Target(cp.value.edge, lp) == Some(np);
            w
  }

  /** Visiting a new held point keeps the visits distinct and leaves fewer held points unvisited. */
  lemma Visit(visits: seq<int>, np: int, held: set<int>)
    requires Distinct(visits) && np !in visits && np in held
    ensures Distinct(visits + [np]) && (visits + [np])[|visits|] == np
    ensures |held - Elems(visits + [np])| < |held - Elems(visits)|
  {
    assert Elems(visits + [np]) == Elems(visits) + {np};
    assert held - Elems(visits) == (held - Elems(visits + [np])) + {np};
  }

  /**
   * From position `from` on, each recorded path leads from the point it
   * was recorded at to the next point visited.
   */
  ghost predicate Chain(visits: seq<int>, added: seq<Edge>, from: nat)
    requires |visits| == |added| + 1
  {
    forall i :: from <= i && i + 2 < |visits| ==> Target(added[i], visits[i + 1]) == Some(visits[i + 2])
  }

  /** A successful walk extends the visits and paths it started with, as a distinct chain from there on. */
  ghost predicate Grows(w: Result<(seq<int>, seq<Edge>)>, visits: seq<int>, added: seq<Edge>)
    requires |visits| == |added| + 1
  {
    w.Ok? ==>
      (visits <= w.value.0 && added <= w.value.1 && Distinct(w.value.0) &&
       |w.value.0| == |w.value.1| + 1 && Chain(w.value.0, w.value.1, |added|))
  }

  /** A walk grown from one step further on, whose step path leads to its next visit, grows from here. */
  lemma ChainStep(w: Result<(seq<int>, seq<Edge>)>, visits: seq<int>, added: seq<Edge>, np: int, e: Edge)
    requires |visits| == |added| + 1
    requires Grows(w, visits + [np], added + [e])
    requires w.Ok? && |w.value.0| > |visits| + 1 ==> Target(e, np) == Some(w.value.0[|visits| + 1])
    ensures Grows(w, visits, added)
    ensures w.Ok? ==> |w.value.0| > |visits| && w.value.0[|visits|] == np
  {
    if w.Ok? {
      var v, a := w.value.0, w.value.1;
      assert v[|visits|] == (visits + [np])[|visits|];
      assert a[|added|] == (added + [e])[|added|];
      forall i | |added| <= i && i + 2 < |v| ensures Target(a[i], v[i + 1]) == Some(v[i + 2]) {
      }
    }
  }

  /** The slot path of `c` other than the one equal to `path`; null when neither is. */
  function Other(c: Connection, path: SalesPath.Path): Option<SalesPath.Path>
  {
    if Holds(c.s0, path) then PathOf(c.s1)
    else if Holds(c.s1, path) then PathOf(c.s0)
    else None
  }

  /**
   * The second `computeRoute`: the walk starts at the candidate's A end
   * along the link of A other than the candidate itself; the route, with
   * the walked paths appended, is returned only when the walk passed as
   * many points as the ring has.
   */
  function Route(s: Connections, path: SalesPath.Path, points: seq<int>, route: RingRoutes.RingRoute)
    : (res: Result<Option<RingRoutes.RingRoute>>)
    requires Valid(s)
    ensures res.Ok? && res.value.Some? ==>
      res.value.value.ring == route.ring && res.value.value.ends == route.ends && route.paths <= res.value.value.paths
    ensures res.Ok? ==> Walked(s, path).Ok? && (res.value.Some? <==> |Walked(s, path).value.0| == |points|)
  {
    match Walked(s, path)
    case Fail(e) => Fail(e)
    case Ok((visits, added)) =>
      if |visits| == |points| then Ok(Some(route.(paths := route.paths + added))) else Ok(None)
  }

  /** The points and paths the route walk from the candidate's A end passes. */
  function Walked(s: Connections, path: SalesPath.Path): (res: Result<(seq<int>, seq<Edge>)>)
    requires Valid(s)
    ensures res.Ok? ==> Distinct(res.value.0) && |res.value.0| == |res.value.1| + 1 && res.value.0[0] == path.edge.a
    ensures res.Ok? ==> Chain(res.value.0, res.value.1, 0)
  {
    var a := path.edge.a;
    var cp := if a in s.refs then Other(Conn(s, a), path) else None;
    OtherEnds(s, a, path);
    RouteWalk(s, a, cp, [a], [])
  }

  /**
   * The first `computeRoute(path, points)`: a route with the candidate as
   * its ends, a fresh registry seeded with the candidate marked
   * non-biddable, the fixed-point loop, then the route walk.
   */
  method ComputeRoute(pass: Connections -> Connections, number: int, path: SalesPath.Path, points: seq<int>)
    returns (res: Result<Option<RingRoutes.RingRoute>>)
    requires Pass(pass)
    ensures res.Ok? && res.value.Some? ==> res.value.value.ring == number && res.value.value.ends == path.edge
  {
    var rr := RingRoutes.WithEnds(number, path.edge);
    var seeded := AddPath(Empty(), path, false);
    if seeded.thrown.Some? {
      return Fail(seeded.thrown.value);
    }
    var t, _ := Settle(pass, seeded.state);
    res := Route(t, path, points, rr);
  }

  /**
   * `computeRoutes()`: the ring's own route under the key of its ends, then
   * one route for every ordered pair of distinct ring points whose key is
   * not taken yet, stored under the key of its ends when the walk covered
   * the ring.
   */
  method ComputeRoutes(pass: Connections -> Connections, ring: Rings.Ring, length: (int, int) -> real)
    returns (res: Result<map<PairKey, RingRoutes.RingRoute>>)
    requires Pass(pass)
    ensures RingRoutes.FromRing(ring).Fail? ==> res.Fail?
    ensures res.Ok? ==> RingRoutes.FromRing(ring).Ok? && Keyed(res.value, RingRoutes.FromRing(ring).value, ring.number)
  {
    var own := RingRoutes.FromRing(ring);
    if own.Fail? {
      return Fail(own.error);
    }
    var or := own.value;
    var routes := map[PathKey(or.ends) := or];
    var points := Rings.Points(ring);
    var i := 0;
    while i < |points|
      invariant 0 <= i <= |points|
      invariant Keyed(routes, or, ring.number)
    {
      var r := RoutesFrom(pass, ring.number, or, routes, points[i], points, length);
      if r.Fail? {
        return Fail(r.error);
      }
      routes := r.value;
      i := i + 1;
    }
    return Ok(routes);
  }

  /** The own route `or` is under the key of its ends, and every route under the key of its own ends. */
  ghost predicate Keyed(routes: map<PairKey, RingRoutes.RingRoute>, or: RingRoutes.RingRoute, number: int)
  {
    PathKey(or.ends) in routes && routes[PathKey(or.ends)] == or &&
    forall k :: k in routes ==> PathKey(routes[k].ends) == k && routes[k].ring == number
  }

  /** Storing a route of the ring under the free key of its ends keeps the map keyed. */
  lemma KeyedPut(routes: map<PairKey, RingRoutes.RingRoute>, or: RingRoutes.RingRoute, number: int, rr: RingRoutes.RingRoute)
    requires Keyed(routes, or, number) && PathKey(rr.ends) !in routes && rr.ring == number
    ensures Keyed(routes[PathKey(rr.ends) := rr], or, number)
  {
  }

  /** The inner loop of `computeRoutes`: the candidates from `sp` to every other ring point. */
  method RoutesFrom(pass: Connections -> Connections, number: int, or: RingRoutes.RingRoute,
                    routes0: map<PairKey, RingRoutes.RingRoute>, sp: int, points: seq<int>, length: (int, int) -> real)
    returns (res: Result<map<PairKey, RingRoutes.RingRoute>>)
    requires Pass(pass) && Keyed(routes0, or, number)
    ensures res.Ok? ==> Keyed(res.value, or, number) && routes0.Keys <= res.value.Keys
  {
    var routes := routes0;
    var j := 0;
    while j < |points|
      invariant 0 <= j <= |points|
      invariant Keyed(routes, or, number) && routes0.Keys <= routes.Keys
    {
      var tp := points[j];
      var path := SalesPath.Path(Edge(sp, tp), length(sp, tp));
      if sp != tp && PathKey(path.edge) !in routes {
        var rr := ComputeRoute(pass, number, path, points);
        if rr.Fail? {
          return Fail(rr.error);
        }
        if rr.value.Some? {
          KeyedPut(routes, or, number, rr.value.value);
          routes := routes[PathKey(rr.value.value.ends) := rr.value.value];
        }
      }
      j := j + 1;
    }
    return Ok(routes);
  }
}
