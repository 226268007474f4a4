/**
 * `lazyman.model.PointVertex`: a point with two connection slots, the two
 * shortest paths it was seeded with and their summed length.
 */
module PointVertex {
  import opened Common
  import opened Edges
  import opened Path2D

  /**
   * `lazyman.model.Connection`, which is not part of this model, as far as
   * a vertex uses it: the path it runs along and its `distance()`.  Two
   * connections are equal when these agree.
   */
  datatype Connection = Connection(path: Path2D, distance: real)

  /** A vertex: its point, its height `Z`, the seeding paths and their length, and the two slots. */
  datatype Vertex = Vertex(point: int, z: real, m0: Option<Path2D>, m1: Option<Path2D>, minDistance: real,
                           c0: Option<Connection>, c1: Option<Connection>)

  /** The constructor: no paths, no connections, height and length 0. */
  function New(point: int): (v: Vertex)
    ensures v.point == point && v.c0.None? && v.c1.None? && v.m0.None? && v.m1.None?
    ensures v.z == 0.0 && v.minDistance == 0.0
  {
    Vertex(point, 0.0, None, None, 0.0, None, None)
  }

  /** `equals`: vertices are equal when their points are. */
  predicate Equals(v: Vertex, o: Vertex)
  {
    v.point == o.point
  }

  /** The connection `c` is in a slot of `v`. */
  predicate Holds(v: Vertex, c: Connection)
  {
    v.c0 == Some(c) || v.c1 == Some(c)
  }

  /**
   * `minPaths(pa, pb)`: both paths must touch the point; they seed the
   * vertex and fill both slots, and their summed length is returned.
   */
  function MinPaths(v: Vertex, pa: Connection, pb: Connection): (r: Result<(Vertex, real)>)
    ensures r.Ok? <==> HasPoint(pa.path.edge, v.point) && HasPoint(pb.path.edge, v.point)
    ensures r.Fail? ==> r.error == IllegalArgument
    ensures r.Ok? ==> r.value.0.c0 == Some(pa) && r.value.0.c1 == Some(pb)
    ensures r.Ok? ==> r.value.1 == r.value.0.minDistance == pa.path.length + pb.path.length
    ensures r.Ok? ==> r.value.0.point == v.point && r.value.0.z == v.z
  {
    if !HasPoint(pa.path.edge, v.point) || !HasPoint(pb.path.edge, v.point) then Fail(IllegalArgument)
    else
      var d := pa.path.length + pb.path.length;
      Ok((v.(m0 := Some(pa.path), m1 := Some(pb.path), minDistance := d, c0 := Some(pa), c1 := Some(pb)), d))
  }

  /**
   * `addConnection(connection, replace)`: with `replace`, the slot holding
   * it (slot 0 first) takes the connection; without, the first empty slot
   * does.  No such slot throws.
   */
  function AddConnection(v: Vertex, c: Connection, replace: Option<Connection>): (r: Result<Vertex>)
    ensures replace.Some? ==> (r.Ok? <==> Holds(v, replace.value))
    ensures replace.None? ==> (r.Ok? <==> v.c0.None? || v.c1.None?)
    ensures r.Fail? ==> r.error == IllegalArgument
    ensures r.Ok? ==> Holds(r.value, c) && r.value.point == v.point && r.value.minDistance == v.minDistance
    ensures r.Ok? && replace.Some? ==>
      (r.value.c0 == Some(c) && v.c0 == replace && r.value.c1 == v.c1) ||
      (r.value.c1 == Some(c) && v.c1 == replace && v.c0 != replace && r.value.c0 == v.c0)
    ensures r.Ok? && replace.None? ==>
      (r.value.c0 == Some(c) && v.c0.None? && r.value.c1 == v.c1) ||
      (r.value.c1 == Some(c) && v.c0.Some? && v.c1.None? && r.value.c0 == v.c0)
  {
    if replace.Some? then
      if v.c0.Some? && v.c0 == replace then Ok(v.(c0 := Some(c)))
      else if v.c1.Some? && v.c1 == replace then Ok(v.(c1 := Some(c)))
      else Fail(IllegalArgument)
    else
      if v.c0.None? then Ok(v.(c0 := Some(c)))
      else if v.c1.None? then Ok(v.(c1 := Some(c)))
      else Fail(IllegalArgument)
  }

  /** The slot test each `removeConnection` overload applies to a connection. */
  datatype Match = ByConnection(c: Connection) | ByPath(p: Path2D) | ByPoint(q: int)

  /** Whether the slot content matches. */
  predicate Matches(o: Option<Connection>, m: Match)
  {
    o.Some? &&
    match m
    case ByConnection(c) => o.value == c
    case ByPath(p) => SameEdge(o.value.path.edge, p.edge)
    case ByPoint(q) => HasPoint(o.value.path.edge, q)
  }

  /**
   * The three `removeConnection` overloads: the first matching slot, slot
   * 0 before slot 1, is emptied and `true` returned; with no match nothing
   * changes.  The by-point overload rejects the vertex's own point.
   */
  function RemoveConnection(v: Vertex, m: Match): (r: Result<(Vertex, bool)>)
    ensures r.Fail? <==> m.ByPoint? && m.q == v.point
    ensures r.Fail? ==> r.error == IllegalArgument
    ensures r.Ok? ==> (r.value.1 <==> Matches(v.c0, m) || Matches(v.c1, m))
    ensures r.Ok? && !r.value.1 ==> r.value.0 == v
    ensures r.Ok? && r.value.1 ==>
      (Matches(v.c0, m) && r.value.0 == v.(c0 := None)) ||
      (!Matches(v.c0, m) && r.value.0 == v.(c1 := None))
  {
    if m.ByPoint? && m.q == v.point then Fail(IllegalArgument)
    else if Matches(v.c0, m) then Ok((v.(c0 := None), true))
    else if Matches(v.c1, m) then Ok((v.(c1 := None), true))
    else Ok((v, false))
  }

  /** `distanceDelta`: with both slots set, their distances over the seeded length; otherwise 0. */
  function DistanceDelta(v: Vertex): real
  {
    if v.c0.Some? && v.c1.Some? then v.c0.value.distance + v.c1.value.distance - v.minDistance else 0.0
  }

  /**
   * Filling a free slot and removing the same connection gives back the
   * vertex.
   */
  lemma AddThenRemove(v: Vertex, c: Connection)
    requires (v.c0.None? || v.c1.None?) && !Holds(v, c)
    ensures AddConnection(v, c, None).Ok?
    ensures RemoveConnection(AddConnection(v, c, None).value, ByConnection(c)) == Ok((v, true))
  {
  }

  /**
   * Right after seeding, `distanceDelta` is how much the two connections'
   * distances exceed the seeding paths' lengths.
   */
  lemma SeededDelta(v: Vertex, pa: Connection, pb: Connection)
    requires MinPaths(v, pa, pb).Ok?
    ensures DistanceDelta(MinPaths(v, pa, pb).value.0) ==
      (pa.distance - pa.path.length) + (pb.distance - pb.path.length)
  {
  }
}
