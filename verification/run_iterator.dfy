/**
 * `salesman.core.RunIterator`: one greedy pass for one point.  Each empty
 * slot of the point reserves the first usable candidate path from the
 * point's candidate list; a full target may give up one of its links for it.
 *
 * The candidate list, the minimum distances, `Path.distance()`,
 * `Path.actualLength()` and the elevation formula come from code outside this
 * model and are parameters (`Oracle`).  The list is taken in the order the
 * `SortByDistance` sort leaves it, since `Path` does not define that
 * comparator.
 */
module SalesRunIterator {
  import opened Common
  import opened Edges
  import opened SalesPath
  import opened SalesConnections

  /** What the pass reads from code outside this model. */
  datatype Oracle = Oracle(
    data: int -> Option<seq<Option<Path>>>,    // TSPDataMap.get(index), in sorted order
    minDistances: int -> seq<real>,            // TSPDataMap.getMinDistances(point)
    distance: Path -> real,                    // Path.distance()
    actualLength: Path -> real,                // Path.actualLength()
    height: (real, real, real, real) -> real)  // h from (next distance, used distance, min distance, elevation)

  /** The registry and the elevation of each point (0.0 until one is set). */
  datatype State = State(conns: Connections, elevation: map<int, real>)

  function Elevation(st: State, k: int): real
  {
    if k in st.elevation then st.elevation[k] else 0.0
  }

  /** The path in a slot, as the pass reads it. */
  function SlotPath(c: Connection, i: int): Option<Path>
    requires i == 0 || i == 1
  {
    if Slot(c, i).Some? then Some(Slot(c, i).value.path) else None
  }

  /**
   * `canUse`: the path touches the point, has a non-negative working length
   * and is in neither of the point's slots.
   */
  predicate CanUse(path: Path, point: int, c: Connection)
  {
    HasPoint(path.edge, point) && path.length >= 0.0 && Count(c, path) == 0
  }

  /** `canUse` is false exactly in the three cases the code rejects. */
  lemma CanUseRejects(path: Path, point: int, c: Connection)
    ensures !CanUse(path, point, c) <==>
      !HasPoint(path.edge, point) || path.length < 0.0 || Holds(c.s0, path) || Holds(c.s1, path)
  {
  }

  /** `getMinDistance`: the nearest distance for a point with no link, else the two nearest summed. */
  function GetMinDistance(dists: seq<real>, c: Connection): (r: Result<real>)
    ensures r.Ok? <==> |dists| >= (if Free(c) == 2 then 1 else 2)
    ensures r.Fail? ==> r.error == IndexOutOfBounds
    ensures r.Ok? && Free(c) == 2 ==> r.value == dists[0]
    ensures r.Ok? && Free(c) < 2 ==> r.value == dists[0] + dists[1]
  {
    if c.s0.None? && c.s1.None? then
      if |dists| >= 1 then Ok(dists[0]) else Fail(IndexOutOfBounds)
    else if |dists| >= 2 then Ok(dists[0] + dists[1]) else Fail(IndexOutOfBounds)
  }

  /** The candidate at `j` is an equal path. */
  predicate IsAt(paths: seq<Option<Path>>, j: int, path: Path)
    requires 0 <= j < |paths|
  {
    paths[j].Some? && SameEdge(paths[j].value.edge, path.edge)
  }

  /** `findPathIndex`: the first index holding an equal path, or -1. */
  function FindPathIndex(paths: seq<Option<Path>>, path: Path): (r: int)
    ensures -1 <= r < |paths|
    ensures r == -1 <==> forall j :: 0 <= j < |paths| ==> !IsAt(paths, j, path)
    ensures r >= 0 ==> IsAt(paths, r, path) && forall j :: 0 <= j < r ==> !IsAt(paths, j, path)
  {
    FindPathIndexFrom(paths, path, 0)
  }

  function FindPathIndexFrom(paths: seq<Option<Path>>, path: Path, i: nat): (r: int)
    requires i <= |paths|
    ensures r == -1 || i <= r < |paths|
    ensures r == -1 <==> forall j :: i <= j < |paths| ==> !IsAt(paths, j, path)
    ensures r >= 0 ==> IsAt(paths, r, path) && forall j :: i <= j < r ==> !IsAt(paths, j, path)
    decreases |paths| - i
  {
    if i == |paths| then -1
    else if IsAt(paths, i, path) then i
    else FindPathIndexFrom(paths, path, i + 1)
  }

  /** No candidate strictly between `index` and `j` is usable. */
  predicate NoneUsable(paths: seq<Option<Path>>, point: int, c: Connection, index: int, j: int)
    requires 0 <= index && j <= |paths|
  {
    forall m :: index < m < j && paths[m].Some? ==> !CanUse(paths[m].value, point, c)
  }

  /** Every candidate after `j` is null. */
  predicate NullAfter(paths: seq<Option<Path>>, j: int)
    requires 0 <= j
  {
    forall m :: j < m < |paths| ==> paths[m].None?
  }

  /**
   * `r` is what a scan after `index` answers: the candidate at some `j`, with
   * nothing usable before it, and either usable itself or the last non-null.
   */
  predicate NextValidAt(paths: seq<Option<Path>>, point: int, c: Connection, index: int, j: int, r: Option<Path>)
    requires 0 <= index
  {
    index < j < |paths| && paths[j] == r && r.Some?
    && NoneUsable(paths, point, c, index, j)
    && (CanUse(r.value, point, c) || NullAfter(paths, j))
  }

  /**
   * `findNextValid`: scanning the candidates after `index`, the first usable
   * one; when none is usable, the last non-null one inspected; null when
   * there is no non-null candidate after `index`.
   */
  function FindNextValid(paths: seq<Option<Path>>, point: int, c: Connection, index: int): (r: Option<Path>)
    requires 0 <= index < |paths|
    ensures r.None? <==> NullAfter(paths, index)
    ensures r.Some? ==> (exists j :: NextValidAt(paths, point, c, index, j, r))
  {
    NextValidFrom(paths, point, c, index + 1, None, index)
  }

  function NextValidFrom(paths: seq<Option<Path>>, point: int, c: Connection, ii: int,
                         last: Option<Path>, index: int): (r: Option<Path>)
    requires 0 <= index < ii <= |paths|
    requires last.None? <==> (forall m :: index < m < ii ==> paths[m].None?)
    requires last.Some? ==> (exists j :: index < j < ii && paths[j] == last
                                         && NoneUsable(paths, point, c, index, j)
                                         && !CanUse(last.value, point, c)
                                         && (forall m :: j < m < ii ==> paths[m].None?))
    requires NoneUsable(paths, point, c, index, ii)
    ensures r.None? <==> NullAfter(paths, index)
    ensures r.Some? ==> (exists j :: NextValidAt(paths, point, c, index, j, r))
    decreases |paths| - ii
  {
    if ii == |paths| then
      if last.Some? then
        var j :| index < j < ii && paths[j] == last && NoneUsable(paths, point, c, index, j)
                 && !CanUse(last.value, point, c) && (forall m :: j < m < ii ==> paths[m].None?);
        assert NextValidAt(paths, point, c, index, j, last);
        last
      else last
    else if paths[ii].None? then NextValidFrom(paths, point, c, ii + 1, last, index)
    else if CanUse(paths[ii].value, point, c) then
      assert NextValidAt(paths, point, c, index, ii, paths[ii]);
      paths[ii]
    else
      NextValidFrom(paths, point, c, ii + 1, paths[ii], index)
  }

  /** A slot link that may be given up for a candidate of distance `d`. */
  predicate Replaceable(o: Oracle, p: Path, d: real)
  {
    p.length >= 0.0 && o.distance(p) < d
  }

  /**
   * `findPathToReplace` as written: slot 0 when it is replaceable, switching
   * to slot 1 only when slot 0 was already chosen and slot 1 is farther.  A
   * replaceable slot 1 is never chosen on its own.
   */
  function FindPathToReplace(o: Oracle, tc: Connection, d: real): (r: Option<Path>)
    requires IsComplete(tc)
    ensures r.Some? <==> Replaceable(o, tc.s0.value.path, d)
    ensures r.Some? ==> Replaceable(o, r.value, d) && (r.value == tc.s0.value.path || r.value == tc.s1.value.path)
    ensures r.Some? ==>
              (r.value == tc.s1.value.path <==>
                 (Replaceable(o, tc.s1.value.path, d) && o.distance(tc.s1.value.path) > o.distance(tc.s0.value.path))
                 || tc.s1.value.path == tc.s0.value.path)
  {
    var p0, p1 := tc.s0.value.path, tc.s1.value.path;
    var p := if Replaceable(o, p0, d) then Some(p0) else None;
    if Replaceable(o, p1, d) && p.Some? && o.distance(p1) > o.distance(p.value) then Some(p1) else p
  }

  /** The distance of the point's other link, as `reserve` computes `useddist`. */
  function UsedDistance(o: Oracle, c: Connection, index: int): real
  {
    if index == 0 && c.s1.Some? then o.distance(c.s1.value.path)
    else if c.s0.Some? then o.distance(c.s0.value.path)
    else 0.0
  }

  /** What `reserve` leaves behind: the state, the reserved path, and any exception. */
  datatype Reservation = Reservation(state: State, path: Option<Path>, thrown: Option<Error>)

  /** The facts every reservation step keeps. */
  ghost predicate ReserveKeeps(st: State, point: int, paths: seq<Option<Path>>, r: Reservation)
  {
    Valid(st.conns) && point in st.conns.refs
    && OnlyClears(st.conns, r.state.conns)
    && (r.path.Some? ==>
          r.thrown.None? && r.path in paths
          && CanUse(r.path.value, point, Conn(st.conns, point))
          && Edges.Target(r.path.value.edge, point).value in r.state.conns.refs
          && FreeAt(r.state.conns, Edges.Target(r.path.value.edge, point).value) > 0
          && (FreeAt(st.conns, Edges.Target(r.path.value.edge, point).value) > 0 ==>
                SameLinks(st.conns, r.state.conns)))
    && (r.path.None? && r.thrown.None? ==> SameLinks(st.conns, r.state.conns))
  }

  /**
   * `reserve` for an empty slot `index` of `point`: the first candidate that
   * has a usable successor and is usable itself, whose target either has a
   * free slot (returned at once) or gives up a replaceable link.
   */
  function Reserve(o: Oracle, st: State, point: int, index: int, paths: seq<Option<Path>>): (r: Reservation)
    requires Valid(st.conns) && point in st.conns.refs
    ensures ReserveKeeps(st, point, paths, r)
  {
    var c := Conn(st.conns, point);
    match GetMinDistance(o.minDistances(point), c)
    case Fail(e) =>
      EnsureSameLinks(st.conns, point);
      Reservation(st, None, Some(e))
    case Ok(mindist) => ReserveFrom(o, st, point, paths, mindist, UsedDistance(o, c, index), 0)
  }

  function ReserveFrom(o: Oracle, st: State, point: int, paths: seq<Option<Path>>,
                       mindist: real, used: real, ii: nat): (r: Reservation)
    requires Valid(st.conns) && point in st.conns.refs
    ensures ReserveKeeps(st, point, paths, r)
    ensures Linked(st.conns) ==> Linked(r.state.conns)
    decreases |paths| - ii
  {
    EnsureSameLinks(st.conns, point);
    if ii >= |paths| then Reservation(st, None, None)
    else if paths[ii].None? then ReserveFrom(o, st, point, paths, mindist, used, ii + 1)
    else
      var path := paths[ii].value;
      var c := Conn(st.conns, point);
      var pn := FindNextValid(paths, point, c, ii);
      if pn.None? || o.actualLength(pn.value) < 0.0 then
        ReserveFrom(o, st, point, paths, mindist, used, ii + 1)
      else if !CanUse(path, point, c) then
        ReserveFrom(o, st, point, paths, mindist, used, ii + 1)
      else
        match Offer(o, st, point, paths, used, mindist, ii)
        case Some(r) => r
        case None =>
          var conns1 := Ensure(st.conns, Edges.Target(path.edge, point).value);
          EnsureKeepsLinked(st.conns, Edges.Target(path.edge, point).value);
          var r := ReserveFrom(o, st.(conns := conns1), point, paths, mindist, used, ii + 1);
          OnlyClearsTransitive(st.conns, conns1, r.state.conns);
          r
  }

  /**
   * One usable candidate `paths[ii]`, whose successor `pn` is usable: a
   * target with a free slot takes it; a full target gives up the link
   * `findPathToReplace` picks, if any, and its elevation becomes the score.
   * Otherwise (none) the scan goes on, with the target registered.
   */
  function Offer(o: Oracle, st: State, point: int, paths: seq<Option<Path>>, used: real, mindist: real, ii: nat)
    : (r: Option<Reservation>)
    requires Valid(st.conns) && point in st.conns.refs && ii < |paths| && paths[ii].Some?
    requires CanUse(paths[ii].value, point, Conn(st.conns, point))
    requires FindNextValid(paths, point, Conn(st.conns, point), ii).Some?
    ensures r.Some? ==> ReserveKeeps(st, point, paths, r.value)
    ensures r.Some? && Linked(st.conns) ==> Linked(r.value.state.conns)
    ensures r.None? ==> OnlyClears(st.conns, Ensure(st.conns, Edges.Target(paths[ii].value.edge, point).value))
  {
    var path := paths[ii].value;
    var pn := FindNextValid(paths, point, Conn(st.conns, point), ii);
    var target := Edges.Target(path.edge, point).value;
    var conns1 := Ensure(st.conns, target);
    EnsureSameLinks(st.conns, point);
    EnsureSameLinks(st.conns, target);
    EnsureKeepsLinked(st.conns, target);
    var tc := Conn(conns1, target);
    if !IsComplete(tc) then Some(Reservation(st.(conns := conns1), Some(path), None))
    else
      var dist := o.distance(pn.value);
      var h := o.height(dist, used, mindist, Elevation(st, point));
      var tp := FindPathToReplace(o, tc, dist);
      if tp.None? then None
      else
        assert target in st.conns.refs && conns1 == st.conns;
        Some(Displace(st, point, paths, ii, tp.value, h))
  }

  /**
   * The reservation at a full target: the path `tp` held there is removed,
   * and unless that throws the offered path is reserved and the target's
   * elevation becomes `h`.
   */
  function Displace(st: State, point: int, paths: seq<Option<Path>>, ii: nat, tp: Path, h: real): (r: Reservation)
    requires Valid(st.conns) && point in st.conns.refs && ii < |paths| && paths[ii].Some?
    requires CanUse(paths[ii].value, point, Conn(st.conns, point))
    requires var target := Edges.Target(paths[ii].value.edge, point).value;
      target in st.conns.refs && IsComplete(Conn(st.conns, target)) &&
      (tp == Conn(st.conns, target).s0.value.path || tp == Conn(st.conns, target).s1.value.path)
    ensures ReserveKeeps(st, point, paths, r)
    ensures Linked(st.conns) ==> Linked(r.state.conns)
  {
    var path := paths[ii].value;
    var target := Edges.Target(path.edge, point).value;
    var rm := RemoveAt(st.conns, target, tp);
    RemoveAtOnlyClears(st.conns, target, tp);
    RemoveHeldKeepsLinked(st.conns, target, tp);
    if rm.thrown.Some? then Reservation(st.(conns := rm.state), None, rm.thrown)
    else Reservation(State(rm.state, st.elevation[target := h]), Some(path), None)
  }

  /**
   * `run(previous, point, index)`: registers the point, returns at once when
   * it is complete, fails when there is no candidate list for `index`, and
   * otherwise fills its empty slots.  Exceptions raised while filling are
   * swallowed, and what was done before them stays.
   */
  function Run(o: Oracle, st: State, point: int, index: int): (r: Effect<State>)
    requires Valid(st.conns)
    ensures Valid(r.state.conns) && Extends(st.conns, r.state.conns) && point in r.state.conns.refs
    ensures r.thrown.Some? <==> !IsComplete(Before(st.conns, point)) && o.data(index).None?
    ensures r.thrown.Some? ==> r.thrown.value == IllegalArgument
    ensures IsComplete(Before(st.conns, point)) || r.thrown.Some? ==>
      SameLinks(st.conns, r.state.conns) && r.state.elevation == st.elevation
  {
    var conns1 := Ensure(st.conns, point);
    EnsureSameLinks(st.conns, point);
    var st1 := st.(conns := conns1);
    if IsComplete(Conn(conns1, point)) then Effect(st1, None)
    else
      match o.data(index)
      case None => Effect(st1, Some(IllegalArgument))
      case Some(paths) =>
        var r := RunSlots(o, st1, point, paths, 0);
        ExtendsTransitive(st.conns, conns1, r.conns);
        Effect(r, None)
  }

  /**
   * The slot loop of `run` from slot `ii` on: an empty slot reserves a
   * candidate and records it at both ends; a slot that cannot be filled
   * ends the loop with its exception swallowed.
   */
  function RunSlots(o: Oracle, st: State, point: int, paths: seq<Option<Path>>, ii: nat): (r: State)
    requires Valid(st.conns) && point in st.conns.refs && ii <= 2
    ensures Valid(r.conns) && Extends(st.conns, r.conns) && point in r.conns.refs
    ensures Linked(st.conns) && NoSelfLoops(paths) ==> Linked(r.conns)
    decreases 2 - ii
  {
    if ii == 2 then st
    else if Slot(Conn(st.conns, point), ii).Some? then RunSlots(o, st, point, paths, ii + 1)
    else
      var f := Fill(o, st, point, ii, paths);
      if !f.1 then f.0
      else
        var r := RunSlots(o, f.0, point, paths, ii + 1);
        ExtendsTransitive(st.conns, f.0.conns, r.conns);
        r
  }

  /**
   * Filling empty slot `ii`: reserve a path and add it.  The state after
   * that, and whether the loop goes on: it stops, with what was done kept,
   * when the reservation or the addition raises an exception or nothing was
   * reserved.
   */
  function Fill(o: Oracle, st: State, point: int, ii: int, paths: seq<Option<Path>>): (r: (State, bool))
    requires Valid(st.conns) && point in st.conns.refs && (ii == 0 || ii == 1) && Slot(Conn(st.conns, point), ii).None?
    ensures Valid(r.0.conns) && Extends(st.conns, r.0.conns) && point in r.0.conns.refs
    ensures Linked(st.conns) && NoSelfLoops(paths) ==> Linked(r.0.conns)
  {
    var rv := Reserve(o, st, point, ii, paths);
    ReserveThenAdd(o, st, point, ii, paths);
    if rv.thrown.Some? || rv.path.None? then (rv.state, false)
    else
      var added := AddPath(rv.state.conns, rv.path.value, true);
      ExtendsTransitive(st.conns, rv.state.conns, added.state);
      (rv.state.(conns := added.state), added.thrown.None?)
  }

  /** No candidate joins a point to itself. */
  predicate NoSelfLoops(paths: seq<Option<Path>>)
  {
    forall j :: 0 <= j < |paths| && paths[j].Some? ==> paths[j].value.edge.a != paths[j].value.edge.b
  }

  /** A reserved path joins the point to a target that does not hold it yet. */
  lemma ReservedIsNew(o: Oracle, st: State, point: int, index: int, paths: seq<Option<Path>>)
    requires Linked(st.conns) && point in st.conns.refs && NoSelfLoops(paths)
    ensures
      var rv := Reserve(o, st, point, index, paths);
      Linked(rv.state.conns)
      && (rv.path.Some? ==>
            var path := rv.path.value;
            path.edge.a != path.edge.b
            && CountAt(rv.state.conns, path.edge.a, path) == 0
            && CountAt(rv.state.conns, path.edge.b, path) == 0)
  {
    var rv := Reserve(o, st, point, index, paths);
    var c := Conn(st.conns, point);
    if GetMinDistance(o.minDistances(point), c).Fail? {
      SameLinksKeepsLinked(st.conns, rv.state.conns);
    }
    if rv.path.Some? {
      var path := rv.path.value;
      var t := rv.state.conns;
      var j :| 0 <= j < |paths| && paths[j] == rv.path;
      OnlyClearsCount(st.conns, t, point, path);
      assert Count(Conn(t, point), path) == 0;
      var target := Edges.Target(path.edge, point).value;
      if Count(Conn(t, target), path) > 0 {
        var i := if Holds(Conn(t, target).s0, path) then 0 else 1;
        assert Slot(Conn(t, target), i).Some?;
        var e := Slot(Conn(t, target), i).value.path;
        assert SameEdge(e.edge, path.edge);
        CountOfEqualPath(Conn(t, point), e, path);
        assert false;
      }
    }
  }

  /** A reservation into an empty slot and the addition of the reserved path keep every link recorded at both ends. */
  lemma ReserveThenAdd(o: Oracle, st: State, point: int, ii: int, paths: seq<Option<Path>>)
    requires Valid(st.conns) && point in st.conns.refs && (ii == 0 || ii == 1) && Slot(Conn(st.conns, point), ii).None?
    ensures var rv := Reserve(o, st, point, ii, paths);
      Linked(st.conns) && NoSelfLoops(paths) ==>
        Linked(rv.state.conns) &&
        (rv.thrown.None? && rv.path.Some? ==> Linked(AddPath(rv.state.conns, rv.path.value, true).state))
  {
    var rv := Reserve(o, st, point, ii, paths);
    if Linked(st.conns) && NoSelfLoops(paths) {
      ReservedIsNew(o, st, point, ii, paths);
      if rv.thrown.None? && rv.path.Some? {
        ReservedFits(st, point, ii, paths, rv);
        AddPathKeepsLinked(rv.state.conns, rv.path.value, true);
      }
    }
  }

  /**
   * A path reserved for the empty slot `ii` of the point can be added: the
   * point keeps that slot free and the reservation left the target one.
   */
  lemma ReservedFits(st: State, point: int, ii: int, paths: seq<Option<Path>>, rv: Reservation)
    requires ReserveKeeps(st, point, paths, rv) && (ii == 0 || ii == 1) && Slot(Conn(st.conns, point), ii).None?
    requires rv.thrown.None? && rv.path.Some? && rv.path.value.edge.a != rv.path.value.edge.b
    ensures AddPath(rv.state.conns, rv.path.value, true).thrown.None?
  {
    var path := rv.path.value;
    var t := rv.state.conns;
    OnlyClearsCount(st.conns, t, point, path);
    assert FreeAt(t, point) > 0;
    assert HasPoint(path.edge, point);
  }

  /** `Path.distance()` as the class defines it: the constant -1 of `SalesPath.Distance`. */
  ghost predicate StubDistance(o: Oracle)
  {
    forall p :: o.distance(p) == Distance(p)
  }

  /**
   * With the stub distance, a full target never gives up a link: no link
   * is nearer than -1, the distance of every candidate.
   */
  lemma StubNeverReplaces(o: Oracle, tc: Connection, pn: Path)
    requires StubDistance(o) && IsComplete(tc)
    ensures FindPathToReplace(o, tc, o.distance(pn)).None?
  {
    assert o.distance(tc.s0.value.path) == -1.0;
  }

  /**
   * With the stub distance, a scan of `reserve` changes no link and no
   * elevation and never throws: a full target is always passed over, so a
   * reserved path leads to a target with a free slot.
   */
  lemma {:induction false} StubReserveFromKeepsLinks(o: Oracle, st: State, point: int, paths: seq<Option<Path>>,
                                                     mindist: real, used: real, ii: nat)
    requires Valid(st.conns) && point in st.conns.refs && StubDistance(o)
    ensures var r := ReserveFrom(o, st, point, paths, mindist, used, ii);
      r.thrown.None? && SameLinks(st.conns, r.state.conns) && r.state.elevation == st.elevation
      && (r.path.Some? ==> FreeAt(st.conns, Edges.Target(r.path.value.edge, point).value) > 0
                           || Edges.Target(r.path.value.edge, point).value !in st.conns.refs)
    decreases |paths| - ii
  {
    EnsureSameLinks(st.conns, point);
    if ii >= |paths| || paths[ii].None? {
      if ii < |paths| {
        StubReserveFromKeepsLinks(o, st, point, paths, mindist, used, ii + 1);
      }
    } else {
      var path := paths[ii].value;
      var c := Conn(st.conns, point);
      var pn := FindNextValid(paths, point, c, ii);
      if pn.None? || o.actualLength(pn.value) < 0.0 || !CanUse(path, point, c) {
        StubReserveFromKeepsLinks(o, st, point, paths, mindist, used, ii + 1);
      } else {
        var target := Edges.Target(path.edge, point).value;
        var conns1 := Ensure(st.conns, target);
        EnsureSameLinks(st.conns, target);
        if IsComplete(Conn(conns1, target)) {
          StubNeverReplaces(o, Conn(conns1, target), pn.value);
          assert Offer(o, st, point, paths, used, mindist, ii).None?;
          StubReserveFromKeepsLinks(o, st.(conns := conns1), point, paths, mindist, used, ii + 1);
          var r := ReserveFrom(o, st.(conns := conns1), point, paths, mindist, used, ii + 1);
          SameLinksTransitive(st.conns, conns1, r.state.conns);
          if r.path.Some? {
            var t := Edges.Target(r.path.value.edge, point).value;
            if t in st.conns.refs {
              assert Conn(conns1, t) == Conn(st.conns, t);
            }
          }
        }
      }
    }
  }

  /**
   * With the stub distance, `reserve` changes no link and no elevation: the
   * eviction of a full target's link is out of reach.
   */
  lemma StubReserveKeepsLinks(o: Oracle, st: State, point: int, index: int, paths: seq<Option<Path>>)
    requires Valid(st.conns) && point in st.conns.refs && StubDistance(o)
    ensures var r := Reserve(o, st, point, index, paths);
      SameLinks(st.conns, r.state.conns) && r.state.elevation == st.elevation
      && (r.path.Some? ==> FreeAt(st.conns, Edges.Target(r.path.value.edge, point).value) > 0
                           || Edges.Target(r.path.value.edge, point).value !in st.conns.refs)
  {
    var c := Conn(st.conns, point);
    EnsureSameLinks(st.conns, point);
    match GetMinDistance(o.minDistances(point), c)
    case Fail(_) =>
    case Ok(mindist) =>
      StubReserveFromKeepsLinks(o, st, point, paths, mindist, UsedDistance(o, c, index), 0);
  }

  /** `run` keeps each link recorded at both of its ends, given candidates without self-loops. */
  lemma RunKeepsLinked(o: Oracle, st: State, point: int, index: int)
    requires Linked(st.conns)
    requires o.data(index).Some? ==> NoSelfLoops(o.data(index).value)
    ensures Linked(Run(o, st, point, index).state.conns)
  {
    var conns1 := Ensure(st.conns, point);
    EnsureSameLinks(st.conns, point);
    SameLinksKeepsLinked(st.conns, conns1);
  }
}
