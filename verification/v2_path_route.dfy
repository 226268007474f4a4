/**
 * `lazyman.v2.model.PathRoute`: the points of one route in visiting order,
 * with the first point as `start` and the summed measured length of the
 * table paths between consecutive points.
 */
module V2PathRoute {
  import opened Common
  import opened V2Path
  import opened V2Point
  import opened V2World

  datatype PathRoute = PathRoute(size: int, length: real, route: seq<int>, start: Option<int>)

  /** A new route: empty, of length zero, with no start. */
  const Empty := PathRoute(0, 0.0, [], None)

  /**
   * `add(point)`: the first point becomes the start; every later point adds
   * the measured length of the path the previous last point's table holds
   * for it, which throws when there is none.
   */
  function Add(w: World, r: PathRoute, point: int): (r': Result<PathRoute>)
    requires r.start.Some? ==> |r.route| > 0
    ensures r'.Ok? ==> r'.value.route == r.route + [point] && r'.value.size == r.size + 1
    ensures r'.Ok? ==> r'.value.start == (if r.start.None? then Some(point) else r.start)
    ensures r.start.None? ==> r' == Ok(PathRoute(r.size + 1, r.length, r.route + [point], Some(point)))
    ensures r'.Fail? ==> r'.error == NullPointer
  {
    if r.start.None? then Ok(r.(start := Some(point), route := r.route + [point], size := r.size + 1))
    else
      var last := r.route[|r.route| - 1];
      if last !in w then Fail(NullPointer)
      else match Lookup(w[last], point)
        case None => Fail(NullPointer)
        case Some(p) => Ok(PathRoute(r.size + 1, r.length + p.actualLength, r.route + [point], r.start))
  }

  /** `Pointers.route()`: a route built by adding the points of a tour in order. */
  function Build(w: World, tour: seq<int>): (r: Result<PathRoute>)
    ensures r.Ok? ==> r.value.route == tour && r.value.size == |tour|
    ensures r.Ok? ==> r.value.start == (if |tour| == 0 then None else Some(tour[0]))
    ensures r.Fail? ==> r.error == NullPointer
    decreases |tour|
  {
    if |tour| == 0 then Ok(Empty)
    else
      match Build(w, tour[..|tour| - 1])
      case Fail(e) => Fail(e)
      case Ok(r) =>
        assert tour[..|tour| - 1] + [tour[|tour| - 1]] == tour;
        Add(w, r, tour[|tour| - 1])
  }

  /** Every consecutive pair of the tour has a path in the earlier point's table. */
  predicate Tabled(w: World, tour: seq<int>)
  {
    forall i :: 0 <= i < |tour| - 1 ==> tour[i] in w && tour[i + 1] in w[tour[i]].paths
  }

  /** The table length from the first point onwards: the sum over consecutive pairs. */
  function TableLength(w: World, tour: seq<int>): real
    requires Tabled(w, tour)
    decreases |tour|
  {
    if |tour| < 2 then 0.0
    else w[tour[0]].paths[tour[1]].actualLength + TableLength(w, tour[1..])
  }

  /** A tour whose consecutive pairs are tabled builds to a route of exactly that length. */
  lemma {:induction false} BuildLength(w: World, tour: seq<int>)
    requires Tabled(w, tour)
    ensures Build(w, tour).Ok?
    ensures Build(w, tour).value.length == TableLength(w, tour)
    decreases |tour|
  {
    if |tour| > 0 {
      var init := tour[..|tour| - 1];
      assert Tabled(w, init);
      BuildLength(w, init);
      var r := Build(w, init).value;
      assert tour[..|tour| - 1] + [tour[|tour| - 1]] == tour;
      assert Build(w, tour) == Add(w, r, tour[|tour| - 1]);
      if |tour| >= 2 {
        AddTabled(w, r, tour[|tour| - 1]);
        TableLengthSnoc(w, tour);
      }
    }
  }

  /** Adding a point the last point's table holds a path to extends the route by that path's length. */
  lemma AddTabled(w: World, r: PathRoute, point: int)
    requires r.start.Some? && |r.route| > 0
    requires r.route[|r.route| - 1] in w && point in w[r.route[|r.route| - 1]].paths
    ensures Add(w, r, point) ==
      Ok(PathRoute(r.size + 1, r.length + w[r.route[|r.route| - 1]].paths[point].actualLength, r.route + [point], r.start))
  {
  }

  /** Summing from the front equals summing up to the last pair and adding it. */
  lemma {:induction false} TableLengthSnoc(w: World, tour: seq<int>)
    requires Tabled(w, tour) && |tour| >= 2
    ensures Tabled(w, tour[..|tour| - 1])
    ensures TableLength(w, tour) ==
      TableLength(w, tour[..|tour| - 1]) + w[tour[|tour| - 2]].paths[tour[|tour| - 1]].actualLength
    decreases |tour|
  {
    assert Tabled(w, tour[..|tour| - 1]);
    if |tour| > 2 {
      assert Tabled(w, tour[1..]);
      TableLengthSnoc(w, tour[1..]);
      assert tour[1..][..|tour[1..]| - 1] == tour[..|tour| - 1][1..];
    }
  }

  /** `index(point)`: the first position holding the point, or -1. */
  function Index(r: PathRoute, point: int): (i: int)
    ensures -1 <= i < |r.route|
    ensures i >= 0 ==> r.route[i] == point && forall j :: 0 <= j < i ==> r.route[j] != point
    ensures i == -1 <==> point !in r.route
  {
    IndexFrom(r.route, point, 0)
  }

  /** The scan of `index` from position `ii`. */
  function IndexFrom(s: seq<int>, point: int, ii: nat): (i: int)
    requires ii <= |s|
    ensures i == -1 || ii <= i < |s|
    ensures i >= 0 ==> s[i] == point && forall j :: ii <= j < i ==> s[j] != point
    ensures i == -1 <==> forall j :: ii <= j < |s| ==> s[j] != point
    decreases |s| - ii
  {
    if ii == |s| then -1
    else if s[ii] == point then ii
    else IndexFrom(s, point, ii + 1)
  }

  /**
   * `next(start)`: the two points after the first occurrence of `start`
   * (after position 0 when `start` is null), as far as the route goes.
   */
  function Next(r: PathRoute, start: Option<int>): (pair: (Option<int>, Option<int>))
    requires r.size == |r.route|
  {
    var index := if start.Some? then Index(r, start.value) else 0;
    if index >= 0 && index + 1 < |r.route| then
      (Some(r.route[index + 1]), if index + 2 < r.size then Some(r.route[index + 2]) else None)
    else (None, None)
  }

  /**
   * On a built route, `next` from a point of the route gives its successors
   * in the tour, and nothing from a point off it.
   */
  lemma NextFollowsTour(w: World, tour: seq<int>, x: int, i: int)
    requires Build(w, tour).Ok? && 0 <= i < |tour| && tour[i] == x
    requires forall j :: 0 <= j < i ==> tour[j] != x
    ensures var pair := Next(Build(w, tour).value, Some(x));
      pair.0 == (if i + 1 < |tour| then Some(tour[i + 1]) else None) &&
      pair.1 == (if i + 2 < |tour| then Some(tour[i + 2]) else None)
  {
    var r := Build(w, tour).value;
    NextAt(r, x, i);
  }

  /** `next` from the first occurrence of a point gives the two positions after it. */
  lemma NextAt(r: PathRoute, x: int, i: int)
    requires r.size == |r.route| && 0 <= i < |r.route| && r.route[i] == x
    requires forall j :: 0 <= j < i ==> r.route[j] != x
    ensures Next(r, Some(x)) ==
      (if i + 1 < |r.route| then Some(r.route[i + 1]) else None, if i + 2 < |r.route| then Some(r.route[i + 2]) else None)
  {
    var k := Index(r, x);
    assert k != -1 by { assert r.route[i] == x; }
    assert k == i;
  }

  /** `next` from a point off the route gives nothing. */
  lemma NextOffRoute(r: PathRoute, x: int)
    requires r.size == |r.route| && x !in r.route
    ensures Next(r, Some(x)) == (None, None)
  {
  }
}
