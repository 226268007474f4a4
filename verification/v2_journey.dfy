/**
 * `lazyman.v2.model.Journey`: reads the links the passes left behind as a
 * set of routes.  Starting at the point in position 0, the walk leaves each
 * point by its first link when that leads somewhere new and by its second
 * link otherwise; where it can go no further the route closes, and the walk
 * restarts at the first listed point not yet visited.  That restart uses the
 * corrected scan `NextUnvisited`; the scan as written, `FindNextIndex`,
 * agrees with it on a list numbered 0, 1, ... in order (`InOrderAgrees`).
 */
module V2Journey {
  import opened Common
  import opened Edges
  import opened V2Path
  import opened V2Point
  import opened V2World
  import opened V2PathRoute

  /** The walk's state: the route being collected, its start, where it stands, what it has seen. */
  datatype Pointers = Pointers(tour: seq<int>, start: int, current: int, visited: set<int>)

  /** A loaded journey: the points it was built over, its routes and the distance walked. */
  datatype Journey = Journey(points: seq<int>, routes: seq<PathRoute>, distance: real)

  /** Every point the journey lists is registered. */
  ghost predicate Listed(w: World, order: seq<int>)
  {
    forall i :: 0 <= i < |order| ==> order[i] in w
  }

  /** `y` is the far end of a link `x` holds. */
  ghost predicate Adjacent(w: World, x: int, y: int)
  {
    x in w &&
    ((w[x].s0.Some? && Far(w[x].s0.value.edge, x) == y) || (w[x].s1.Some? && Far(w[x].s1.value.edge, x) == y))
  }

  /** Consecutive points of the tour are joined by a link. */
  ghost predicate Chain(w: World, tour: seq<int>)
  {
    forall i :: 0 <= i < |tour| - 1 ==> Adjacent(w, tour[i], tour[i + 1])
  }

  /** The length of the link `x` holds to `y`, looking at the first slot first. */
  function Hop(w: World, x: int, y: int): real
  {
    if x in w && w[x].s0.Some? && Far(w[x].s0.value.edge, x) == y then w[x].s0.value.actualLength
    else if x in w && w[x].s1.Some? && Far(w[x].s1.value.edge, x) == y then w[x].s1.value.actualLength
    else 0.0
  }

  /** The summed length of the links along a tour. */
  function Walked(w: World, tour: seq<int>): real
    decreases |tour|
  {
    if |tour| < 2 then 0.0
    else Walked(w, tour[..|tour| - 1]) + Hop(w, tour[|tour| - 2], tour[|tour| - 1])
  }

  /** The summed length of the links along every route. */
  function Total(w: World, routes: seq<PathRoute>): real
    decreases |routes|
  {
    if |routes| == 0 then 0.0
    else Total(w, routes[..|routes| - 1]) + Walked(w, routes[|routes| - 1].route)
  }

  /** The points the routes pass through. */
  function Covered(routes: seq<PathRoute>): set<int>
    decreases |routes|
  {
    if |routes| == 0 then {}
    else
      var last := routes[|routes| - 1].route;
      Covered(routes[..|routes| - 1]) + (set x | x in last)
  }

  /**
   * `findNextIndex` as written: the first position below `n` that is not
   * itself a visited sequence, or -1.  It tests the position where the
   * sequence of the point at that position is meant.
   */
  function FindNextIndex(n: nat, visited: set<int>): (i: int)
    ensures -1 <= i < n
    ensures i >= 0 ==> i !in visited && forall j :: 0 <= j < i ==> j in visited
    ensures i == -1 <==> forall j :: 0 <= j < n ==> j in visited
  {
    FindFrom(n, visited, 0)
  }

  /** The scan of `findNextIndex` from position `ii`. */
  function FindFrom(n: nat, visited: set<int>, ii: nat): (i: int)
    requires ii <= n
    ensures i == -1 || ii <= i < n
    ensures i >= 0 ==> i !in visited && forall j :: ii <= j < i ==> j in visited
    ensures i == -1 <==> forall j :: ii <= j < n ==> j in visited
    decreases n - ii
  {
    if ii == n then -1
    else if ii !in visited then ii
    else FindFrom(n, visited, ii + 1)
  }

  /**
   * Three points listed from position 1 of the cache, as `pointList(1)`
   * lists them: 1, 2, 0.  After a first route through points 1 and 2 the
   * scan as written answers position 0, whose point 1 was visited, so the
   * walk would restart there; the corrected scan answers position 2, the
   * unvisited point 0.
   */
  lemma FindNextIndexRevisits()
    ensures FindNextIndex(3, {1, 2}) == 0 && [1, 2, 0][0] in {1, 2}
    ensures NextUnvisited([1, 2, 0], {1, 2}) == 2
  {
    assert 0 !in {1, 2};
    assert [1, 2, 0][2] !in {1, 2};
  }

  /**
   * On a list numbered 0, 1, ... in order, as `pointList(0)` lists the
   * cache, the scan as written and the corrected scan agree.
   */
  lemma InOrderAgrees(order: seq<int>, visited: set<int>)
    requires forall i :: 0 <= i < |order| ==> order[i] == i
    ensures FindNextIndex(|order|, visited) == NextUnvisited(order, visited)
  {
    var a := FindNextIndex(|order|, visited);
    var b := NextUnvisited(order, visited);
    if a >= 0 {
      assert order[a] == a;
    }
    if b >= 0 {
      assert order[b] == b;
    }
  }

  /**
   * `findNextIndex` as evidently intended: the first position whose point
   * is not visited, or -1.
   */
  function NextUnvisited(order: seq<int>, visited: set<int>): (i: int)
    ensures -1 <= i < |order|
    ensures i >= 0 ==> order[i] !in visited && forall j :: 0 <= j < i ==> order[j] in visited
    ensures i == -1 <==> forall j :: 0 <= j < |order| ==> order[j] in visited
  {
    UnvisitedFrom(order, visited, 0)
  }

  /** The corrected scan from position `ii`. */
  function UnvisitedFrom(order: seq<int>, visited: set<int>, ii: nat): (i: int)
    requires ii <= |order|
    ensures i == -1 || ii <= i < |order|
    ensures i >= 0 ==> order[i] !in visited && forall j :: ii <= j < i ==> order[j] in visited
    ensures i == -1 <==> forall j :: ii <= j < |order| ==> order[j] in visited
    decreases |order| - ii
  {
    if ii == |order| then -1
    else if order[ii] !in visited then ii
    else UnvisitedFrom(order, visited, ii + 1)
  }

  /**
   * The link the walk leaves `cur` by, or None when the route closes there.
   * From a start point that is the first slot, wherever it leads.  Elsewhere
   * an empty first slot closes the route; a first slot leading to a visited
   * point hands over to the second, which closes the route when it is empty
   * or also leads to a visited point.
   */
  function Leave(pt: Point, cur: int, isStart: bool, visited: set<int>): (o: Option<Path>)
    ensures o.Some? ==> o == pt.s0 || o == pt.s1
    ensures isStart ==> o == pt.s0
    ensures !isStart && o.Some? ==> Far(o.value.edge, cur) !in visited
    ensures o.Some? && o != pt.s0 ==> pt.s0.Some? && Far(pt.s0.value.edge, cur) in visited
    ensures !isStart && pt.s0.Some? && Far(pt.s0.value.edge, cur) !in visited ==> o == pt.s0
  {
    if isStart then pt.s0
    else if pt.s0.None? then None
    else if Far(pt.s0.value.edge, cur) !in visited then pt.s0
    else if pt.s1.None? then None
    else if Far(pt.s1.value.edge, cur) in visited then None
    else pt.s1
  }

  /** The walk state is consistent: a fresh start has an empty tour, a running tour ends where the walk stands. */
  ghost predicate Walking(w: World, p: Pointers, routes: seq<PathRoute>, dist: real)
  {
    p.start in w && p.current in w &&
    (p.current == p.start ==> p.tour == [] && p.start !in p.visited) &&
    (p.current != p.start ==>
      |p.tour| > 0 && p.tour[0] == p.start && p.tour[|p.tour| - 1] == p.current && p.start in p.visited) &&
    Chain(w, p.tour) && (forall k :: 0 <= k < |routes| ==> Chain(w, routes[k].route)) &&
    p.visited <= Covered(routes) + (set x | x in p.tour) &&
    dist == Total(w, routes) + Walked(w, p.tour)
  }

  /** One point more is visited: one fewer is left. */
  lemma VisitOne(keys: set<int>, visited: set<int>, c: int)
    requires c in keys
    ensures |keys - (visited + {c})| == |keys - visited| - (if c in visited then 0 else 1)
  {
    if c !in visited {
      assert keys - visited == (keys - (visited + {c})) + {c};
    } else {
      assert visited + {c} == visited;
    }
  }

  /** Following a link adds its length to the tour's walked length. */
  lemma WalkedSnoc(w: World, tour: seq<int>, t: int)
    requires |tour| > 0
    ensures Walked(w, tour + [t]) == Walked(w, tour) + Hop(w, tour[|tour| - 1], t)
  {
    assert (tour + [t])[..|tour|] == tour;
  }

  /** Closing a route adds its points and its walked length. */
  lemma CloseAdds(w: World, routes: seq<PathRoute>, route: PathRoute)
    ensures Covered(routes + [route]) == Covered(routes) + (set x | x in route.route)
    ensures Total(w, routes + [route]) == Total(w, routes) + Walked(w, route.route)
  {
    assert (routes + [route])[..|routes|] == routes;
  }

  /** What is left to visit, counting a current point already visited as half a step. */
  function Measure(w: World, p: Pointers): nat
  {
    2 * |w.Keys - p.visited| + (if p.current in p.visited then 1 else 0)
  }

  /** The tour once the current point is on it: a start point begins a new one. */
  function Tour(p: Pointers): seq<int>
  {
    if p.current == p.start then [p.current] else p.tour
  }

  /** The link the walk leaves the current point by, with the current point counted as visited. */
  function Exit(w: World, p: Pointers): Option<Path>
    requires p.current in w
  {
    Leave(w[p.current], p.current, p.current == p.start, p.visited + {p.current})
  }

  /** The state after following `path` from the current point. */
  function Moved(p: Pointers, path: Path): Pointers
  {
    var t := Far(path.edge, p.current);
    Pointers(Tour(p) + [t], p.start, t, p.visited + {p.current})
  }

  /** Following the exit link keeps the walk consistent, adds the link's length and leaves less to visit. */
  lemma MoveKeepsWalking(w: World, p: Pointers, routes: seq<PathRoute>, dist: real, path: Path)
    requires Linked(w) && Walking(w, p, routes, dist) && Exit(w, p) == Some(path)
    ensures Walking(w, Moved(p, path), routes, dist + path.actualLength)
    ensures Measure(w, Moved(p, path)) < Measure(w, p)
  {
    var cur := p.current;
    var t := Far(path.edge, cur);
    var tour := Tour(p);
    VisitOne(w.Keys, p.visited, cur);
    assert SlotLinked(w, cur, w[cur].s0) && SlotLinked(w, cur, w[cur].s1);
    assert t in w && t != cur;
    assert Adjacent(w, cur, t);
    assert Hop(w, cur, t) == path.actualLength;
    WalkedSnoc(w, tour, t);
    assert Chain(w, tour + [t]);
  }

  /**
   * Closing the route at a point with no exit keeps every route a chain,
   * puts every visited point on a route, accounts the distance and leaves
   * less to visit.
   */
  lemma CloseKeepsWalking(w: World, p: Pointers, routes: seq<PathRoute>, dist: real, route: PathRoute)
    requires Walking(w, p, routes, dist) && Build(w, Tour(p)) == Ok(route)
    ensures forall k :: 0 <= k < |routes + [route]| ==> Chain(w, (routes + [route])[k].route)
    ensures p.visited + {p.current} <= Covered(routes + [route])
    ensures dist == Total(w, routes + [route])
    ensures 2 * |w.Keys - (p.visited + {p.current})| < Measure(w, p)
  {
    VisitOne(w.Keys, p.visited, p.current);
    assert route.route == Tour(p);
    ClosedCovers(w, p, routes, route);
    ClosedTotal(w, p, routes, dist, route);
    ClosedChains(w, p, routes, route);
  }

  /** The closed route holds the current point and the tour so far. */
  lemma ClosedCovers(w: World, p: Pointers, routes: seq<PathRoute>, route: PathRoute)
    requires route.route == Tour(p)
    requires p.current == p.start ==> p.tour == []
    requires p.current != p.start ==> |p.tour| > 0 && p.tour[|p.tour| - 1] == p.current
    requires p.visited <= Covered(routes) + (set x | x in p.tour)
    ensures p.visited + {p.current} <= Covered(routes + [route])
  {
    CloseAdds(w, routes, route);
    assert p.current in route.route;
  }

  /** Closing the route moves its walked length into the total. */
  lemma ClosedTotal(w: World, p: Pointers, routes: seq<PathRoute>, dist: real, route: PathRoute)
    requires route.route == Tour(p)
    requires p.current == p.start ==> p.tour == []
    requires dist == Total(w, routes) + Walked(w, p.tour)
    ensures dist == Total(w, routes + [route])
  {
    CloseAdds(w, routes, route);
  }

  /** The closed route is a chain, like every route before it. */
  lemma ClosedChains(w: World, p: Pointers, routes: seq<PathRoute>, route: PathRoute)
    requires route.route == Tour(p) && Chain(w, p.tour)
    requires forall k :: 0 <= k < |routes| ==> Chain(w, routes[k].route)
    ensures forall k :: 0 <= k < |routes + [route]| ==> Chain(w, (routes + [route])[k].route)
  {
    forall k | 0 <= k < |routes + [route]|
      ensures Chain(w, (routes + [route])[k].route)
    {
      if k < |routes| {
        assert (routes + [route])[k] == routes[k];
      }
    }
  }

  /**
   * After closing a route the walk either has visited every listed point,
   * all of them now on a route, or restarts consistently at the first
   * listed point not yet visited, with less left to visit.
   */
  lemma Restart(w: World, order: seq<int>, p: Pointers, routes: seq<PathRoute>, dist: real, route: PathRoute)
    requires Listed(w, order) && Walking(w, p, routes, dist) && Build(w, Tour(p)) == Ok(route)
    ensures var visited := p.visited + {p.current};
      var i := NextUnvisited(order, visited);
      (i < 0 ==> (forall j :: 0 <= j < |order| ==> order[j] in Covered(routes + [route])) &&
                 (forall k :: 0 <= k < |routes + [route]| ==> Chain(w, (routes + [route])[k].route)) &&
                 dist == Total(w, routes + [route])) &&
      (i >= 0 ==> Walking(w, Pointers([], order[i], order[i], visited), routes + [route], dist) &&
                  Measure(w, Pointers([], order[i], order[i], visited)) < Measure(w, p))
  {
    CloseKeepsWalking(w, p, routes, dist, route);
    var visited := p.visited + {p.current};
    var i := NextUnvisited(order, visited);
    if i < 0 {
      forall j | 0 <= j < |order|
        ensures order[j] in Covered(routes + [route])
      {
        assert order[j] in visited;
      }
    } else {
      var q := Pointers([], order[i], order[i], visited);
      assert order[i] in w && order[i] !in visited;
      assert Walked(w, q.tour) == 0.0;
      assert Measure(w, q) == 2 * |w.Keys - visited|;
    }
  }

  /**
   * The loop of `load` from state `p`, with `routes` closed so far and
   * `dist` walked so far: every route it closes follows links, every
   * listed point ends up on a route, and the distance is the length of the
   * links walked.
   */
  function Walk(w: World, order: seq<int>, p: Pointers, routes: seq<PathRoute>, dist: real)
    : (r: Result<(seq<PathRoute>, real)>)
    requires Linked(w) && Listed(w, order) && Walking(w, p, routes, dist)
    ensures r.Ok? ==> forall k :: 0 <= k < |r.value.0| ==> Chain(w, r.value.0[k].route)
    ensures r.Ok? ==> forall i :: 0 <= i < |order| ==> order[i] in Covered(r.value.0)
    ensures r.Ok? ==> r.value.1 == Total(w, r.value.0)
    ensures r.Ok? ==> |r.value.0| > |routes|
    ensures r.Fail? ==> r.error == NullPointer
    decreases Measure(w, p)
  {
    match Exit(w, p)
    case Some(path) =>
      MoveKeepsWalking(w, p, routes, dist, path);
      Walk(w, order, Moved(p, path), routes, dist + path.actualLength)
    case None =>
      match Build(w, Tour(p))
      case Fail(e) => Fail(e)
      case Ok(route) =>
        Restart(w, order, p, routes, dist, route);
        var visited := p.visited + {p.current};
        var i := NextUnvisited(order, visited);
        if i < 0 then Ok((routes + [route], dist))
        else Walk(w, order, Pointers([], order[i], order[i], visited), routes + [route], dist)
  }

  /**
   * `load`: walks the links from the point in position 0; an empty point
   * list has no position 0.
   */
  function Load(w: World, order: seq<int>): (r: Result<Journey>)
    requires Linked(w) && Listed(w, order)
    ensures |order| == 0 <==> r == Fail(IndexOutOfBounds)
    ensures r.Fail? && |order| > 0 ==> r.error == NullPointer
    ensures r.Ok? ==> r.value.points == order && |r.value.routes| > 0
    ensures r.Ok? ==> forall k :: 0 <= k < |r.value.routes| ==> Chain(w, r.value.routes[k].route)
    ensures r.Ok? ==> forall i :: 0 <= i < |order| ==> order[i] in Covered(r.value.routes)
    ensures r.Ok? ==> r.value.distance == Total(w, r.value.routes)
  {
    if |order| == 0 then Fail(IndexOutOfBounds)
    else
      match Walk(w, order, Pointers([], order[0], order[0], {}), [], 0.0)
      case Fail(e) => Fail(e)
      case Ok((routes, dist)) => Ok(Journey(order, routes, dist))
  }

  /** `isComplete`: the links form a single route. */
  predicate IsComplete(j: Journey)
  {
    |j.routes| == 1
  }

  /** A complete journey is one route through every listed point, along links. */
  lemma CompleteIsOneRoute(w: World, order: seq<int>)
    requires Linked(w) && Listed(w, order)
    requires Load(w, order).Ok? && IsComplete(Load(w, order).value)
    ensures var route := Load(w, order).value.routes[0].route;
      Chain(w, route) && forall i :: 0 <= i < |order| ==> order[i] in route
  {
    var routes := Load(w, order).value.routes;
    assert routes[..0] == [];
    assert Covered(routes) == set x | x in routes[0].route;
  }
}
