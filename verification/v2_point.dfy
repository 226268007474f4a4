/**
 * `lazyman.v2.model.Point`: a point with two link slots, a connect counter and
 * a neighbour table (`paths`, keyed by the neighbour's sequence) together with
 * that table's order by length (`sortIndex`).  Coordinates, elevation, the
 * `delta`/`minConnectionDistance` scores and the chain length are not part of
 * this model.
 */
module V2Point {
  import opened Common
  import opened Edges
  import opened V2Path

  datatype Point = Point(sequence: int, s0: Option<Path>, s1: Option<Path>, connectCount: int,
                         paths: map<int, Path>, sortIndex: seq<int>)

  /** `Path.equals`: the same two endpoints, in either order. */
  predicate Same(p: Path, q: Path)
  {
    SameEdge(p.edge, q.edge)
  }

  /** The number of occupied slots. */
  function Filled(pt: Point): nat
  {
    (if pt.s0.Some? then 1 else 0) + (if pt.s1.Some? then 1 else 0)
  }

  /** A slot holds a path equal to `path`. */
  predicate InSlot(pt: Point, path: Path)
  {
    (pt.s0.Some? && Same(pt.s0.value, path)) || (pt.s1.Some? && Same(pt.s1.value, path))
  }

  /** The slot content `o` is a path that leads from `s` to `target`. */
  predicate LeadsTo(o: Option<Path>, s: int, target: int)
  {
    o.Some? && V2Path.Target(o.value, s) == Ok(target)
  }

  /** Every occupied slot holds a path through the point itself. */
  predicate Touching(pt: Point)
  {
    (pt.s0.Some? ==> HasPoint(pt.s0.value.edge, pt.sequence)) &&
    (pt.s1.Some? ==> HasPoint(pt.s1.value.edge, pt.sequence))
  }

  /**
   * The shape every operation keeps on a point the cache owns: the counter
   * equals the number of occupied slots, both slots touch the point and lead
   * elsewhere, and the two slots never hold equal paths.
   */
  predicate WellFormed(pt: Point)
  {
    pt.connectCount == Filled(pt) && Touching(pt) &&
    (pt.s0.Some? ==> pt.s0.value.edge.a != pt.s0.value.edge.b) &&
    (pt.s1.Some? ==> pt.s1.value.edge.a != pt.s1.value.edge.b) &&
    (pt.s0.Some? && pt.s1.Some? ==> !Same(pt.s0.value, pt.s1.value))
  }

  /** The constructor: a non-negative sequence, both slots empty, no neighbours yet. */
  function New(sequence: int): (r: Result<Point>)
    ensures r.Ok? <==> sequence >= 0
    ensures r.Fail? ==> r.error == IllegalArgument
    ensures r.Ok? ==> r.value.sequence == sequence && Filled(r.value) == 0
    ensures r.Ok? ==> WellFormed(r.value) && r.value.paths == map[]
  {
    if sequence < 0 then Fail(IllegalArgument)
    else Ok(Point(sequence, None, None, 0, map[], []))
  }

  /**
   * The copy constructor: the same slots and the same (shared) neighbour
   * table, but the counter is not copied and restarts at 0.
   */
  function Copy(pt: Point): (r: Point)
    ensures r.sequence == pt.sequence && r.s0 == pt.s0 && r.s1 == pt.s1
    ensures r.paths == pt.paths && r.sortIndex == pt.sortIndex
    ensures r.connectCount == 0
  {
    pt.(connectCount := 0)
  }

  /** `add`: files the path under the sequence of its other endpoint. */
  function Add(pt: Point, path: Path): (r: Result<Point>)
    ensures r.Ok? <==> HasPoint(path.edge, pt.sequence)
    ensures r.Ok? ==> Edges.Target(path.edge, pt.sequence).Some? &&
                      r.value == pt.(paths := pt.paths[Edges.Target(path.edge, pt.sequence).value := path])
  {
    match V2Path.Target(path, pt.sequence)
    case Fail(e) => Fail(e)
    case Ok(t) => Ok(pt.(paths := pt.paths[t := path]))
  }

  /** `clearConnections`: both slots empty and the counter back to 0. */
  function ClearConnections(pt: Point): (r: Point)
    ensures Filled(r) == 0 && r.connectCount == 0
    ensures r.sequence == pt.sequence && r.paths == pt.paths && r.sortIndex == pt.sortIndex
  {
    pt.(s0 := None, s1 := None, connectCount := 0)
  }

  /**
   * `hasConnection`: for a null path, whether a slot is free; otherwise
   * whether slot 0 or slot 1 holds an equal path.
   */
  function HasConnection(pt: Point, path: Option<Path>): (r: bool)
    ensures path.None? ==> (r <==> Filled(pt) < 2)
    ensures path.Some? ==> (r <==> InSlot(pt, path.value))
  {
    if path.None? then pt.s0.None? || pt.s1.None?
    else if pt.s0.Some? && Same(pt.s0.value, path.value) then true
    else if pt.s1.Some? then Same(pt.s1.value, path.value)
    else false
  }

  /** `isConnected`: both slots occupied. */
  predicate IsConnected(pt: Point)
  {
    pt.s0.Some? && pt.s1.Some?
  }

  /** `canConnect`: a slot is free and fewer than two connects are counted. */
  predicate CanConnect(pt: Point)
  {
    (pt.s0.None? || pt.s1.None?) && pt.connectCount < 2
  }

  /**
   * `connect`: nothing happens when an equal path is already held; otherwise
   * slot 0 is filled if free, then slot 1, the counter rises by one, and a
   * point with both slots full throws.
   */
  function Connect(pt: Point, path: Path): (r: Result<Point>)
    ensures InSlot(pt, path) ==> r == Ok(pt)
    ensures r.Fail? <==> !InSlot(pt, path) && IsConnected(pt)
    ensures r.Fail? ==> r.error == IllegalState
    ensures r.Ok? ==> InSlot(r.value, path)
    ensures r.Ok? && !InSlot(pt, path) ==>
      Filled(r.value) == Filled(pt) + 1 && r.value.connectCount == pt.connectCount + 1
    ensures r.Ok? && !InSlot(pt, path) && pt.s0.None? ==> r.value.s0 == Some(path) && r.value.s1 == pt.s1
    ensures r.Ok? && !InSlot(pt, path) && pt.s0.Some? ==> r.value.s0 == pt.s0 && r.value.s1 == Some(path)
    ensures r.Ok? ==> r.value.sequence == pt.sequence && r.value.paths == pt.paths &&
                      r.value.sortIndex == pt.sortIndex
  {
    if HasConnection(pt, Some(path)) then Ok(pt)
    else if pt.s0.None? then Ok(pt.(s0 := Some(path), connectCount := pt.connectCount + 1))
    else if pt.s1.None? then Ok(pt.(s1 := Some(path), connectCount := pt.connectCount + 1))
    else Fail(IllegalState)
  }

  /**
   * `disconnect(target)`: clears the first slot whose path leads to `target`
   * and lowers the counter; throws when a slot's path does not touch the
   * point or when no slot leads to `target`.
   */
  function Disconnect(pt: Point, target: int): (r: Result<Point>)
    ensures Touching(pt) ==>
      (r.Ok? <==> LeadsTo(pt.s0, pt.sequence, target) || LeadsTo(pt.s1, pt.sequence, target))
    ensures r.Fail? ==> r.error == IllegalState
    ensures r.Ok? ==> r.value.sequence == pt.sequence && r.value.paths == pt.paths &&
                      r.value.sortIndex == pt.sortIndex && r.value.connectCount == pt.connectCount - 1
    ensures r.Ok? && LeadsTo(pt.s0, pt.sequence, target) ==>
      r.value == pt.(s0 := None, connectCount := pt.connectCount - 1)
    ensures r.Ok? && !LeadsTo(pt.s0, pt.sequence, target) ==>
      LeadsTo(pt.s1, pt.sequence, target) &&
      r.value == pt.(s1 := None, connectCount := pt.connectCount - 1)
  {
    var r0 := if pt.s0.Some? then V2Path.Target(pt.s0.value, pt.sequence) else Ok(target - 1);
    if r0.Fail? then Fail(r0.error)
    else if r0.value == target && pt.s0.Some? then Ok(pt.(s0 := None, connectCount := pt.connectCount - 1))
    else
      var r1 := if pt.s1.Some? then V2Path.Target(pt.s1.value, pt.sequence) else Ok(target - 1);
      if r1.Fail? then Fail(r1.error)
      else if r1.value == target && pt.s1.Some? then Ok(pt.(s1 := None, connectCount := pt.connectCount - 1))
      else Fail(IllegalState)
  }

  /**
   * `longest`: the only occupied slot when there is one; with two, the strictly
   * longer by measured length, and slot 1 on a tie.
   */
  function Longest(pt: Point): (r: Option<Path>)
    ensures r.None? <==> Filled(pt) == 0
    ensures pt.s0.None? ==> r == pt.s1
    ensures pt.s0.Some? && pt.s1.None? ==> r == pt.s0
    ensures IsConnected(pt) ==> (r == pt.s0 || r == pt.s1)
    ensures IsConnected(pt) ==>
      r.value.actualLength >= pt.s0.value.actualLength && r.value.actualLength >= pt.s1.value.actualLength
    ensures IsConnected(pt) && pt.s0.value.actualLength == pt.s1.value.actualLength ==> r == pt.s1
  {
    if pt.s0.None? then pt.s1
    else if pt.s1.None? then pt.s0
    else if pt.s0.value.actualLength > pt.s1.value.actualLength then pt.s0
    else pt.s1
  }

  /** `nextConnection(path)`: an occupied slot not equal to `path`, slot 0 first. */
  function NextConnection(pt: Point, path: Path): (r: Option<Path>)
    ensures r.Some? ==> (r == pt.s0 || r == pt.s1) && !Same(r.value, path)
    ensures r.None? <==>
      (pt.s0.None? || Same(pt.s0.value, path)) && (pt.s1.None? || Same(pt.s1.value, path))
    ensures pt.s0.Some? && !Same(pt.s0.value, path) ==> r == pt.s0
  {
    if pt.s0.Some? && !Same(pt.s0.value, path) then pt.s0
    else if pt.s1.Some? && !Same(pt.s1.value, path) then pt.s1
    else None
  }

  /**
   * On a full well-formed point, the longest link and the link after it are
   * the two slots: the eviction passes challenge both incumbents, in that order.
   */
  lemma LongestThenNextCoverSlots(pt: Point)
    requires WellFormed(pt) && IsConnected(pt)
    ensures Longest(pt).Some? && NextConnection(pt, Longest(pt).value).Some?
    ensures {Longest(pt).value, NextConnection(pt, Longest(pt).value).value} == {pt.s0.value, pt.s1.value}
  {
    var l := Longest(pt).value;
    SameEdgeEquivalence(pt.s0.value.edge, pt.s1.value.edge, l.edge);
  }

  /**
   * `nextConnection(point)`: the endpoint across the slot that does not lead
   * to `point`; throws when no slot leads to `point` or a slot's path does
   * not touch this point.
   */
  function NextConnectionPoint(pt: Point, point: int): (r: Result<Option<int>>)
    ensures Touching(pt) ==>
      (r.Ok? <==> LeadsTo(pt.s0, pt.sequence, point) || LeadsTo(pt.s1, pt.sequence, point))
    ensures r.Ok? && r.value.Some? ==>
      (LeadsTo(pt.s0, pt.sequence, r.value.value) || LeadsTo(pt.s1, pt.sequence, r.value.value)) &&
      r.value.value != point
    ensures r.Ok? && IsConnected(pt) && !(LeadsTo(pt.s0, pt.sequence, point) && LeadsTo(pt.s1, pt.sequence, point)) ==>
      r.value.Some?
  {
    var r0 := if pt.s0.Some? then V2Path.Target(pt.s0.value, pt.sequence) else Ok(point);
    if r0.Fail? then Fail(r0.error)
    else
      var r1 := if pt.s1.Some? then V2Path.Target(pt.s1.value, pt.sequence) else Ok(point);
      if r1.Fail? then Fail(r1.error)
      else
        var connected := (pt.s0.Some? && r0.value == point) || (pt.s1.Some? && r1.value == point);
        var next := if pt.s1.Some? && r1.value != point then Some(r1.value)
                    else if pt.s0.Some? && r0.value != point then Some(r0.value)
                    else None;
        if connected then Ok(next) else Fail(IllegalState)
  }

  /** The path filed under a neighbour's sequence, or null. */
  function Lookup(pt: Point, key: int): Option<Path>
  {
    if key in pt.paths then Some(pt.paths[key]) else None
  }

  /**
   * Position `k` of `sortIndex` names a neighbour this point is already joined
   * to, in the sense `next` tests (`isConnectedTo`, i.e. `hasConnection`).
   */
  predicate Taken(pt: Point, k: nat)
    requires k < |pt.sortIndex|
  {
    HasConnection(pt, Lookup(pt, pt.sortIndex[k]))
  }

  /** The first position at or after `from` that is not taken, or `|sortIndex|`. */
  function FirstFree(pt: Point, from: nat): (k: nat)
    requires from <= |pt.sortIndex|
    ensures from <= k <= |pt.sortIndex|
    ensures k < |pt.sortIndex| ==> !Taken(pt, k)
    ensures forall j :: from <= j < k ==> Taken(pt, j)
    decreases |pt.sortIndex| - from
  {
    if from == |pt.sortIndex| then from
    else if !Taken(pt, from) then from
    else FirstFree(pt, from + 1)
  }

  /** `IndexedPath`: a position in `sortIndex`, its path, and the next free one's path. */
  datatype IndexedPath = IndexedPath(index: int, path: Option<Path>, next: Option<Path>)

  /** The `while (true)` loop of `next`, from the position after `index`. */
  function NextScan(pt: Point, index: int, ip: Option<IndexedPath>): Option<IndexedPath>
    requires index >= -1
    decreases |pt.sortIndex| - index
  {
    if index + 1 >= |pt.sortIndex| then ip
    else
      var p := Lookup(pt, pt.sortIndex[index + 1]);
      if HasConnection(pt, p) then NextScan(pt, index + 1, ip)
      else if ip.None? then NextScan(pt, index + 1, Some(IndexedPath(index + 1, p, None)))
      else Some(ip.value.(next := p))
  }

  /** `next(index)`: a negative start other than -1 reads outside `sortIndex`. */
  function Next(pt: Point, index: int): Result<Option<IndexedPath>>
  {
    if index < -1 then Fail(IndexOutOfBounds) else Ok(NextScan(pt, index, None))
  }

  /** What `next(index)` is meant to return, stated through `FirstFree`. */
  function NextSpec(pt: Point, index: int): Option<IndexedPath>
    requires index >= -1
  {
    if index + 1 >= |pt.sortIndex| then None
    else
      var i := FirstFree(pt, index + 1);
      if i == |pt.sortIndex| then None
      else
        var j := FirstFree(pt, i + 1);
        Some(IndexedPath(i, Lookup(pt, pt.sortIndex[i]),
                         if j < |pt.sortIndex| then Lookup(pt, pt.sortIndex[j]) else None))
  }

  /** The second phase of the scan: it completes `next` with the following free path. */
  lemma {:induction false} NextScanCompletes(pt: Point, index: int, x: IndexedPath)
    requires index >= -1 && index + 1 <= |pt.sortIndex|
    ensures var j := FirstFree(pt, index + 1);
      NextScan(pt, index, Some(x)) == Some(if j < |pt.sortIndex| then x.(next := Lookup(pt, pt.sortIndex[j])) else x)
    decreases |pt.sortIndex| - index
  {
    if index + 1 < |pt.sortIndex| && Taken(pt, index + 1) {
      NextScanCompletes(pt, index + 1, x);
    }
  }

  /** The first phase of the scan finds the first free position. */
  lemma {:induction false} NextScanFinds(pt: Point, index: int)
    requires index >= -1
    ensures NextScan(pt, index, None) == NextSpec(pt, index)
    decreases |pt.sortIndex| - index
  {
    if index + 1 < |pt.sortIndex| {
      if Taken(pt, index + 1) {
        NextScanFinds(pt, index + 1);
      } else {
        NextScanCompletes(pt, index + 1, IndexedPath(index + 1, Lookup(pt, pt.sortIndex[index + 1]), None));
      }
    }
  }

  /**
   * `next(index)` returns the first later position whose neighbour is not
   * already joined, with `next` the path of the following such position; and
   * null when there is none.
   */
  lemma NextIsFirstFree(pt: Point, index: int)
    requires index >= -1
    ensures Next(pt, index) == Ok(NextSpec(pt, index))
    ensures var r := NextSpec(pt, index);
      r.Some? ==> index < r.value.index < |pt.sortIndex| && !Taken(pt, r.value.index) &&
                  (forall k :: index < k < r.value.index ==> Taken(pt, k))
    ensures NextSpec(pt, index).None? <==> forall k :: index < k < |pt.sortIndex| ==> Taken(pt, k)
  {
    NextScanFinds(pt, index);
    if index + 1 < |pt.sortIndex| {
      var i := FirstFree(pt, index + 1);
      if i == |pt.sortIndex| {
        assert forall k :: index < k < |pt.sortIndex| ==> Taken(pt, k);
      }
    }
  }

  /**
   * `isEqual`: the same point, and either both have no links or each of the
   * other's slot contents passes `hasConnection` here (a null slot of the
   * other point passes whenever this point has a free slot).
   */
  predicate IsEqual(pt: Point, target: Point)
  {
    pt.sequence == target.sequence &&
    if pt.s0.None? && pt.s1.None? then target.s0.None? && target.s1.None?
    else HasConnection(pt, target.s0) && HasConnection(pt, target.s1)
  }

  /**
   * A point holding one link is "equal" to the same point holding none, while
   * the converse comparison fails: `isEqual` is not symmetric.
   */
  lemma IsEqualIgnoresMissingLink(path: Path)
    requires HasPoint(path.edge, 0)
    ensures var one := Point(0, Some(path), None, 1, map[], []);
            var none := Point(0, None, None, 0, map[], []);
            IsEqual(one, none) && !IsEqual(none, one)
  {
  }

  /** The corrected comparison: the same point holding equal links. */
  predicate SameConnections(pt: Point, target: Point)
  {
    pt.sequence == target.sequence &&
    Filled(pt) == Filled(target) &&
    (target.s0.Some? ==> InSlot(pt, target.s0.value)) &&
    (target.s1.Some? ==> InSlot(pt, target.s1.value)) &&
    (pt.s0.Some? ==> InSlot(target, pt.s0.value)) &&
    (pt.s1.Some? ==> InSlot(target, pt.s1.value))
  }

  /**
   * The corrected comparison is an equivalence, is unaffected by the copy
   * constructor, and implies the written one.
   */
  lemma SameConnectionsIsEquivalence(p: Point, q: Point, r: Point)
    ensures SameConnections(p, p)
    ensures SameConnections(p, q) ==> SameConnections(q, p)
    ensures SameConnections(p, q) && SameConnections(q, r) ==> SameConnections(p, r)
    ensures SameConnections(p, Copy(p))
    ensures SameConnections(p, q) ==> IsEqual(p, q)
  {
    forall e, f, g | SameEdge(e, f) && SameEdge(f, g)
      ensures SameEdge(e, g)
    {
      SameEdgeEquivalence(e, f, g);
    }
  }

  /**
   * `canConnect` reads the free slot only, as long as the counter does not
   * exceed the occupied slots (true of a well-formed point and of every copy).
   */
  lemma CanConnectIsFreeSlot(pt: Point)
    requires pt.connectCount <= Filled(pt)
    ensures CanConnect(pt) <==> !IsConnected(pt)
    ensures CanConnect(Copy(pt)) <==> CanConnect(pt)
  {
  }

  /** `connect` keeps a point well formed when the path runs to another point. */
  lemma ConnectKeepsWellFormed(pt: Point, path: Path)
    requires WellFormed(pt)
    requires HasPoint(path.edge, pt.sequence) && path.edge.a != path.edge.b
    ensures Connect(pt, path).Ok? ==> WellFormed(Connect(pt, path).value)
    ensures Connect(pt, path).Ok? ==> Connect(pt, path).value.connectCount <= 2
  {
  }

  /** `disconnect` keeps a point well formed. */
  lemma DisconnectKeepsWellFormed(pt: Point, target: int)
    requires WellFormed(pt)
    ensures Disconnect(pt, target).Ok? ==> WellFormed(Disconnect(pt, target).value)
    ensures Disconnect(pt, target).Ok? ==> Disconnect(pt, target).value.connectCount == pt.connectCount - 1
  {
  }

  /**
   * Joining a point to a new neighbour and then detaching that neighbour gives
   * back the point as it was.
   */
  lemma ConnectThenDisconnect(pt: Point, path: Path)
    requires WellFormed(pt) && !IsConnected(pt) && !InSlot(pt, path)
    requires HasPoint(path.edge, pt.sequence) && path.edge.a != path.edge.b
    ensures Connect(pt, path).Ok?
    ensures var t := Edges.Target(path.edge, pt.sequence).value;
            Disconnect(Connect(pt, path).value, t) == Ok(pt)
  {
  }
}
