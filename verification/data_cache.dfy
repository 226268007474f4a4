/**
 * `lazyman.core.DataCache`: the points, the paths by key, each point's list
 * of paths to its neighbours (one per neighbour), and the vertices
 * `postLoad` seeds from the two shortest paths of every point.
 */
module CoreDataCache {
  import opened Common
  import opened Order
  import opened Edges
  import opened Path2D
  import opened PointVertex

  datatype Cache = Cache(points: set<int>, paths: map<PairKey, Path2D>, pointPaths: map<int, seq<Path2D>>,
                         vertices: map<int, Vertex>)

  /** The constructor: everything empty. */
  const Empty := Cache({}, map[], map[], map[])

  /** The far end of a path seen from `p`: B from A, A otherwise. */
  function Far(e: Edge, p: int): (r: int)
    ensures HasPoint(e, p) ==> Target(e, p) == Some(r)
  {
    if e.a == p then e.b else e.a
  }

  /**
   * The lists as `addPointPath` keeps them: every path of a point's list
   * touches the point, and no two lead to the same neighbour.
   */
  ghost predicate Lists(c: Cache)
  {
    forall p :: p in c.pointPaths ==> Distinct(c.pointPaths[p], p)
  }

  /** Every path of `l` touches `p` and no two have the same far end. */
  ghost predicate Distinct(l: seq<Path2D>, p: int)
  {
    (forall i :: 0 <= i < |l| ==> HasPoint(l[i].edge, p)) &&
    (forall i, j :: 0 <= i < j < |l| ==> Far(l[i].edge, p) != Far(l[j].edge, p))
  }

  /** `containsPoint`. */
  predicate ContainsPoint(c: Cache, point: int)
  {
    point in c.points
  }

  /** `addPoint`. */
  function AddPoint(c: Cache, point: int): (r: Cache)
    ensures r.points == c.points + {point}
    ensures r.paths == c.paths && r.pointPaths == c.pointPaths && r.vertices == c.vertices
  {
    c.(points := c.points + {point})
  }

  /** The first path of the list that touches `b`. */
  function FirstTouching(l: seq<Path2D>, b: int): (r: Option<Path2D>)
    ensures r.Some? ==> r.value in l && HasPoint(r.value.edge, b)
    ensures r.None? <==> forall i :: 0 <= i < |l| ==> !HasPoint(l[i].edge, b)
  {
    if |l| == 0 then None
    else if HasPoint(l[0].edge, b) then Some(l[0])
    else FirstTouching(l[1..], b)
  }

  /** `getPath(a, b)`: the first path of a's list that touches `b`; null without one or without a list. */
  function GetPath(c: Cache, a: int, b: int): (r: Option<Path2D>)
    ensures r.Some? ==> a in c.pointPaths && r.value in c.pointPaths[a] && HasPoint(r.value.edge, b)
    ensures r.None? <==> a !in c.pointPaths || forall i :: 0 <= i < |c.pointPaths[a]| ==> !HasPoint(c.pointPaths[a][i].edge, b)
  {
    if a in c.pointPaths then FirstTouching(c.pointPaths[a], b) else None
  }

  /** `getPaths`: the point's list, or null for an unknown point. */
  function GetPaths(c: Cache, point: int): (r: Option<seq<Path2D>>)
    ensures r.None? <==> point !in c.pointPaths
    ensures r.Some? ==> r.value == c.pointPaths[point]
  {
    if point in c.pointPaths then Some(c.pointPaths[point]) else None
  }

  /**
   * `addPointPath(point, path)`: the path must touch the point; the point
   * gets a list if it has none, and the path joins it unless the list
   * already reaches the path's far end.
   */
  function AddPointPath(c: Cache, point: int, path: Path2D): (r: Result<Cache>)
    ensures r.Ok? <==> HasPoint(path.edge, point)
    ensures r.Fail? ==> r.error == IllegalArgument
    ensures r.Ok? ==> point in r.value.pointPaths && GetPath(r.value, point, Far(path.edge, point)).Some?
    ensures r.Ok? ==> r.value.points == c.points && r.value.paths == c.paths && r.value.vertices == c.vertices
    ensures r.Ok? ==> r.value.pointPaths.Keys == c.pointPaths.Keys + {point}
    ensures r.Ok? ==> forall q :: q in c.pointPaths && q != point ==> r.value.pointPaths[q] == c.pointPaths[q]
  {
    if !HasPoint(path.edge, point) then Fail(IllegalArgument)
    else
      var c1 := if point in c.pointPaths then c else c.(pointPaths := c.pointPaths[point := []]);
      var op := Far(path.edge, point);
      if GetPath(c1, point, op).None? then
        var l := c1.pointPaths[point] + [path];
        assert HasPoint(l[|l| - 1].edge, op);
        Ok(c1.(pointPaths := c1.pointPaths[point := l]))
      else Ok(c1)
  }

  /** `addPointPath` never gives a point two paths to the same neighbour. */
  lemma AddPointPathKeepsLists(c: Cache, point: int, path: Path2D)
    requires Lists(c)
    ensures AddPointPath(c, point, path).Ok? ==> Lists(AddPointPath(c, point, path).value)
  {
    if HasPoint(path.edge, point) {
      var c1 := if point in c.pointPaths then c else c.(pointPaths := c.pointPaths[point := []]);
      var op := Far(path.edge, point);
      var l := c1.pointPaths[point];
      assert Distinct(l, point);
      if GetPath(c1, point, op).None? {
        var l' := l + [path];
        forall i, j | 0 <= i < j < |l'|
          ensures Far(l'[i].edge, point) != Far(l'[j].edge, point)
        {
          if j == |l| {
            assert !HasPoint(l[i].edge, op);
          }
        }
        assert Distinct(l', point);
      }
    }
  }

  /** The guarded `addPoint` of `addPath`: a point not yet contained is added. */
  function Known(c: Cache, point: int): (r: Cache)
    ensures r.points == c.points + {point}
    ensures r.paths == c.paths && r.pointPaths == c.pointPaths && r.vertices == c.vertices
  {
    if !ContainsPoint(c, point) then AddPoint(c, point) else c
  }

  /**
   * `addPath`: both endpoints become points, the path is filed under its
   * key, and each endpoint's list reaches the other.
   */
  function AddPath(c: Cache, path: Path2D): (r: Cache)
    ensures r.points == c.points + {path.edge.a, path.edge.b}
    ensures r.paths == c.paths[PathKey(path.edge) := path]
    ensures GetPath(r, path.edge.a, path.edge.b).Some? && GetPath(r, path.edge.b, path.edge.a).Some?
    ensures r.pointPaths.Keys == c.pointPaths.Keys + {path.edge.a, path.edge.b}
  {
    var a, b := path.edge.a, path.edge.b;
    var c2 := Known(Known(c, a), b);
    var c3 := c2.(paths := c2.paths[PathKey(path.edge) := path]);
    var c4 := AddPointPath(c3, a, path).value;
    var c5 := AddPointPath(c4, b, path).value;
    SameList(c4, c5, a, b);
    c5
  }

  /** `getPath(a, b)` depends only on a's list. */
  lemma SameList(c: Cache, d: Cache, a: int, b: int)
    ensures a in c.pointPaths && a in d.pointPaths && c.pointPaths[a] == d.pointPaths[a] ==> GetPath(c, a, b) == GetPath(d, a, b)
  {
  }

  /** `addPath` keeps every list free of duplicate neighbours. */
  lemma AddPathKeepsLists(c: Cache, path: Path2D)
    requires Lists(c)
    ensures Lists(AddPath(c, path))
  {
    var a, b := path.edge.a, path.edge.b;
    var c2 := Known(Known(c, a), b);
    var c3 := c2.(paths := c2.paths[PathKey(path.edge) := path]);
    AddPointPathKeepsLists(c3, a, path);
    AddPointPathKeepsLists(AddPointPath(c3, a, path).value, b, path);
  }

  /** `close`: points, paths and lists are emptied; the vertices stay. */
  function Close(c: Cache): (r: Cache)
    ensures r.points == {} && r.paths == map[] && r.pointPaths == map[]
    ensures r.vertices == c.vertices
  {
    c.(points := {}, paths := map[], pointPaths := map[])
  }

  /** The sort key of `SortByDistance`. */
  function Len(p: Path2D): real
  {
    p.length
  }

  /** Every vertex is filed under its own point, as `getVertex` files them. */
  ghost predicate Filed(vs: map<int, Vertex>)
  {
    forall q :: q in vs ==> vs[q].point == q
  }

  /** `getVertex(point)`: the point's vertex, created on first use. */
  function GetVertex(vs: map<int, Vertex>, point: int): (r: (map<int, Vertex>, Vertex))
    ensures point in r.0 && r.0[point] == r.1 && r.0.Keys == vs.Keys + {point}
    ensures point in vs ==> r.0 == vs
    ensures point !in vs ==> r.1 == New(point)
    ensures forall q :: q in vs ==> r.0[q] == vs[q]
    ensures Filed(vs) ==> Filed(r.0)
  {
    if point in vs then (vs, vs[point]) else (vs[point := New(point)], New(point))
  }

  /** `getVertex(point, path)`: the vertex at the far end of `path`; IllegalState when it does not touch `point`. */
  function GetTargetVertex(vs: map<int, Vertex>, point: int, path: Path2D): (r: Result<map<int, Vertex>>)
    ensures r.Ok? <==> HasPoint(path.edge, point)
    ensures r.Fail? ==> r.error == IllegalState
    ensures r.Ok? ==> r.value.Keys == vs.Keys + {Far(path.edge, point)}
    ensures r.Ok? ==> forall q :: q in vs ==> r.value[q] == vs[q]
    ensures r.Ok? && Filed(vs) ==> Filed(r.value)
  {
    match Target(path.edge, point)
    case None => Fail(IllegalState)
    case Some(t) => Ok(GetVertex(vs, t).0)
  }

  /** What `postLoad` leaves for a point with (sorted) list `l`. */
  ghost predicate Seeds(v: Vertex, p: int, l: seq<Path2D>, distance: (int, Path2D) -> real)
  {
    |l| >= 4 && v.point == p &&
    v.c0 == Some(Connection(l[0], distance(p, l[0]))) && v.c1 == Some(Connection(l[1], distance(p, l[1]))) &&
    v.minDistance == l[0].length + l[1].length &&
    v.z == distance(p, l[2]) + distance(p, l[3]) - v.minDistance
  }

  /** The four leading paths of a point's list all touch it. */
  ghost predicate Touches4(l: seq<Path2D>, p: int)
    requires |l| >= 4
  {
    forall k :: 0 <= k < 4 ==> HasPoint(l[k].edge, p)
  }

  /** The four leading paths touch the point exactly when each of them does. */
  lemma TouchesLeading(l: seq<Path2D>, p: int)
    ensures |l| >= 4 ==> (Touches4(l, p) <==>
      HasPoint(l[0].edge, p) && HasPoint(l[1].edge, p) && HasPoint(l[2].edge, p) && HasPoint(l[3].edge, p))
  {
    if |l| >= 4 && HasPoint(l[0].edge, p) && HasPoint(l[1].edge, p) && HasPoint(l[2].edge, p) && HasPoint(l[3].edge, p) {
      forall k | 0 <= k < 4
        ensures HasPoint(l[k].edge, p)
      {
        if k == 0 {} else if k == 1 {} else if k == 2 {} else {}
      }
    }
  }

  /** Point `p` has a list `postLoad` can seed it from. */
  ghost predicate Ready(lists: map<int, seq<Path2D>>, p: int)
  {
    p in lists && |lists[p]| >= 4 && Touches4(lists[p], p)
  }

  /**
   * One pass of the `postLoad` loop, for point `p`: a null or empty list is
   * IllegalState, too short a list IndexOutOfBounds, a leading path that
   * misses the point IllegalState; otherwise the point's vertex takes the
   * first two paths as its seeding connections and the next two set its
   * height, and the far ends of all four get vertices.
   */
  function Seed(c: Cache, p: int, distance: (int, Path2D) -> real): (r: Result<map<int, Vertex>>)
    requires Filed(c.vertices)
    ensures r.Ok? <==> Ready(c.pointPaths, p)
    ensures r.Fail? && (p !in c.pointPaths || |c.pointPaths[p]| == 0) ==> r.error == IllegalState
    ensures r.Fail? && p in c.pointPaths && 0 < |c.pointPaths[p]| < 2 ==> r.error == IndexOutOfBounds
    ensures r.Ok? ==> p in r.value && Seeds(r.value[p], p, c.pointPaths[p], distance) && Filed(r.value)
    ensures r.Ok? ==> forall q :: q in c.vertices && q != p ==> q in r.value && r.value[q] == c.vertices[q]
  {
    var vs0 := GetVertex(c.vertices, p).0;
    if p !in c.pointPaths || |c.pointPaths[p]| == 0 then Fail(IllegalState)
    else if |c.pointPaths[p]| < 2 then Fail(IndexOutOfBounds)
    else
      TouchesLeading(c.pointPaths[p], p);
      match SeedPair(vs0, p, c.pointPaths[p], distance)
      case Fail(e) => Fail(e)
      case Ok((vs2, v)) => SeedHeight(vs2, v, p, c.pointPaths[p], distance)
  }

  /** The first half of a pass: the two shortest paths seed the point's vertex. */
  function SeedPair(vs: map<int, Vertex>, p: int, l: seq<Path2D>, distance: (int, Path2D) -> real)
    : (r: Result<(map<int, Vertex>, Vertex)>)
    requires |l| >= 2 && p in vs && Filed(vs)
    ensures r.Ok? <==> HasPoint(l[0].edge, p) && HasPoint(l[1].edge, p)
    ensures r.Fail? ==> r.error == IllegalState
    ensures r.Ok? ==> p in r.value.0 && r.value.0[p] == vs[p] && Filed(r.value.0)
    ensures r.Ok? ==> forall q :: q in vs ==> q in r.value.0 && r.value.0[q] == vs[q]
    ensures r.Ok? ==> r.value.1.point == p && r.value.1.minDistance == l[0].length + l[1].length
    ensures r.Ok? ==> r.value.1.c0 == Some(Connection(l[0], distance(p, l[0])))
    ensures r.Ok? ==> r.value.1.c1 == Some(Connection(l[1], distance(p, l[1])))
  {
    match GetTargetVertex(vs, p, l[0])
    case Fail(e) => Fail(e)
    case Ok(vs1) =>
    match GetTargetVertex(vs1, p, l[1])
    case Fail(e) => Fail(e)
    case Ok(vs2) =>
    match MinPaths(vs2[p], Connection(l[0], distance(p, l[0])), Connection(l[1], distance(p, l[1])))
    case Fail(e) => Fail(IllegalArgument)
    case Ok((v, _)) => Ok((vs2, v))
  }

  /** The second half of a pass: the next two paths set the height and the vertex is stored. */
  function SeedHeight(vs: map<int, Vertex>, v: Vertex, p: int, l: seq<Path2D>, distance: (int, Path2D) -> real)
    : (r: Result<map<int, Vertex>>)
    requires |l| >= 2 && Filed(vs) && v.point == p
    ensures r.Ok? <==> |l| >= 4 && HasPoint(l[2].edge, p) && HasPoint(l[3].edge, p)
    ensures r.Fail? && |l| < 4 ==> r.error == IndexOutOfBounds
    ensures r.Ok? ==> p in r.value && Filed(r.value) && r.value[p] == v.(z := distance(p, l[2]) + distance(p, l[3]) - v.minDistance)
    ensures r.Ok? ==> forall q :: q in vs && q != p ==> q in r.value && r.value[q] == vs[q]
  {
    if |l| < 4 then Fail(IndexOutOfBounds)
    else
      match GetTargetVertex(vs, p, l[2])
      case Fail(e) => Fail(e)
      case Ok(vs3) =>
      match GetTargetVertex(vs3, p, l[3])
      case Fail(e) => Fail(e)
      case Ok(vs4) => Ok(vs4[p := v.(z := distance(p, l[2]) + distance(p, l[3]) - v.minDistance)])
  }

  /** No point appears twice in `keys`. */
  ghost predicate Once(keys: seq<int>)
  {
    forall i, j :: 0 <= i < j < |keys| ==> keys[i] != keys[j]
  }

  /**
   * The loop of `postLoad` over the points from position `i` of `keys` (the
   * iteration order of the point table), on the sorted lists.
   */
  function Fill(c: Cache, keys: seq<int>, i: nat, distance: (int, Path2D) -> real): (r: Result<Cache>)
    requires i <= |keys| && Filed(c.vertices)
    ensures r.Ok? ==> r.value.points == c.points && r.value.pointPaths == c.pointPaths && r.value.paths == c.paths
    ensures r.Ok? <==> forall j :: i <= j < |keys| ==> Ready(c.pointPaths, keys[j])
    decreases |keys| - i
  {
    if i == |keys| then Ok(c)
    else
      match Seed(c, keys[i], distance)
      case Fail(e) => Fail(e)
      case Ok(vs) => Fill(c.(vertices := vs), keys, i + 1, distance)
  }

  /** The loop leaves alone the vertex of a point it does not visit. */
  lemma {:induction false} FillKeepsOthers(c: Cache, keys: seq<int>, i: nat, distance: (int, Path2D) -> real, q: int)
    requires i <= |keys| && Filed(c.vertices)
    requires q in c.vertices && forall j :: i <= j < |keys| ==> keys[j] != q
    ensures Fill(c, keys, i, distance).Ok? ==>
      q in Fill(c, keys, i, distance).value.vertices && Fill(c, keys, i, distance).value.vertices[q] == c.vertices[q]
    decreases |keys| - i
  {
    if i < |keys| {
      var s := Seed(c, keys[i], distance);
      if s.Ok? {
        FillKeepsOthers(c.(vertices := s.value), keys, i + 1, distance, q);
      }
    }
  }

  /** After the loop, every point it visited holds the vertex its own pass seeded. */
  lemma {:induction false} FillSeeds(c: Cache, keys: seq<int>, i: nat, distance: (int, Path2D) -> real)
    requires i <= |keys| && Filed(c.vertices) && Once(keys)
    requires Fill(c, keys, i, distance).Ok?
    ensures forall j :: i <= j < |keys| ==>
      (keys[j] in Fill(c, keys, i, distance).value.vertices &&
       Seeds(Fill(c, keys, i, distance).value.vertices[keys[j]], keys[j], c.pointPaths[keys[j]], distance))
    decreases |keys| - i
  {
    if i < |keys| {
      var vs := Seed(c, keys[i], distance).value;
      var c' := c.(vertices := vs);
      var r := Fill(c, keys, i, distance).value;
      assert Fill(c, keys, i, distance) == Fill(c', keys, i + 1, distance);
      FillSeeds(c', keys, i + 1, distance);
      assert forall j :: i + 1 <= j < |keys| ==> keys[j] != keys[i];
      FillKeepsOthers(c', keys, i + 1, distance, keys[i]);
      forall j | i <= j < |keys|
        ensures keys[j] in r.vertices && Seeds(r.vertices[keys[j]], keys[j], c.pointPaths[keys[j]], distance)
      {
        if j == i {
          assert r.vertices[keys[i]] == vs[keys[i]];
        }
      }
    }
  }

  /**
   * `postLoad`: every list sorted by length, then every point, in the
   * iteration order `keys` of the point table, seeded in turn.
   */
  function PostLoad(c: Cache, keys: seq<int>, distance: (int, Path2D) -> real): (r: Result<Cache>)
    requires Filed(c.vertices)
    ensures r.Ok? ==> r.value.points == c.points && r.value.paths == c.paths
    ensures r.Ok? ==> r.value.pointPaths.Keys == c.pointPaths.Keys
    ensures r.Ok? ==> forall p :: p in c.pointPaths ==> r.value.pointPaths[p] == SortBy(c.pointPaths[p], Len)
  {
    var sorted := c.(pointPaths := map p | p in c.pointPaths :: SortBy(c.pointPaths[p], Len));
    Fill(sorted, keys, 0, distance)
  }

  /**
   * After `postLoad`, each point's vertex is seeded from its sorted list:
   * connections along the two shortest paths, their summed length, and the
   * height the next two give.
   */
  lemma PostLoadSeeds(c: Cache, keys: seq<int>, distance: (int, Path2D) -> real)
    requires Filed(c.vertices) && Once(keys) && PostLoad(c, keys, distance).Ok?
    ensures forall j :: 0 <= j < |keys| ==> var r := PostLoad(c, keys, distance).value;
      keys[j] in r.vertices && keys[j] in r.pointPaths && SortedBy(r.pointPaths[keys[j]], Len) &&
      Seeds(r.vertices[keys[j]], keys[j], r.pointPaths[keys[j]], distance)
  {
    var sorted := c.(pointPaths := map p | p in c.pointPaths :: SortBy(c.pointPaths[p], Len));
    FillSeeds(sorted, keys, 0, distance);
  }

  /** The seeded length is the least sum of lengths over any two positions of the sorted list. */
  lemma SeededIsShortestPair(l: seq<Path2D>, a: int, b: int)
    requires SortedBy(l, Len) && 0 <= a < |l| && 0 <= b < |l| && a != b
    ensures l[0].length + l[1].length <= l[a].length + l[b].length
  {
    var lo, hi := if a < b then a else b, if a < b then b else a;
    assert Len(l[0]) <= Len(l[lo]) || lo == 0;
    assert Len(l[1]) <= Len(l[hi]) || hi == 1;
  }

  /**
   * On lists `addPointPath` built, `postLoad` succeeds exactly when every
   * visited point has a list of at least four neighbours.
   */
  lemma PostLoadNeedsFour(c: Cache, keys: seq<int>, distance: (int, Path2D) -> real)
    requires Lists(c) && Filed(c.vertices)
    ensures PostLoad(c, keys, distance).Ok? <==> forall j :: 0 <= j < |keys| ==>
      keys[j] in c.pointPaths && |c.pointPaths[keys[j]]| >= 4
  {
    var sorted := c.(pointPaths := map p | p in c.pointPaths :: SortBy(c.pointPaths[p], Len));
    forall j | 0 <= j < |keys|
      ensures Ready(sorted.pointPaths, keys[j]) <==> keys[j] in c.pointPaths && |c.pointPaths[keys[j]]| >= 4
    {
      if keys[j] in c.pointPaths {
        SortedTouches(c.pointPaths[keys[j]], keys[j]);
      }
    }
  }

  /** A sorted list whose paths all touch the point has its four leading paths touch it. */
  lemma SortedTouches(l: seq<Path2D>, p: int)
    requires Distinct(l, p)
    ensures |SortBy(l, Len)| >= 4 ==> Touches4(SortBy(l, Len), p)
  {
    var s := SortBy(l, Len);
    if |s| >= 4 {
      forall k | 0 <= k < 4
        ensures HasPoint(s[k].edge, p)
      {
        assert s[k] in multiset(s);
        assert s[k] in multiset(l);
        var m :| 0 <= m < |l| && l[m] == s[k];
      }
    }
  }

}
