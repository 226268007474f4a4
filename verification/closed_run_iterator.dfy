/**
 * `salesman.core.ClosedRunIterator`: the variant of the greedy pass used
 * once rings exist.  Every empty slot of a point must be filled; a full
 * target gives up a link only when its elevation is below the computed
 * score, and the score then becomes its elevation.
 *
 * The candidate lists, `Path.distance()` and the score formula are
 * parameters (`Oracle`).
 */
module SalesClosedRunIterator {
  import opened Common
  import opened Edges
  import opened SalesPath
  import opened SalesConnections
  import opened SalesRunIterator

  /** What the pass reads from code outside this model. */
  datatype Oracle = Oracle(
    data: int -> Option<seq<Option<Path>>>,  // TSPDataMap.get(index)
    distance: Path -> real,                  // Path.distance()
    score: (real, real, int, int) -> real)   // h from (next distance, first distance, position, list length)

  /** `canUse`: the path touches the point and is in neither of its slots. */
  predicate CanUse(path: Path, point: int, c: Connection)
  {
    HasPoint(path.edge, point) && Count(c, path) == 0
  }

  /** `getTarget(point, path)`: B when A is the point, otherwise A. */
  function GetTarget(point: int, e: Edge): (r: int)
    ensures HasPoint(e, point) ==> Edges.Target(e, point) == Some(r)
    ensures !HasPoint(e, point) ==> r == e.a
  {
    if e.a == point then e.b else e.a
  }

  /** `findNextValid`: the first non-null candidate after `index`, or null. */
  function FindNextValid(paths: seq<Option<Path>>, index: int): (r: Option<Path>)
    requires 0 <= index < |paths|
    ensures r.None? <==> NullAfter(paths, index)
    ensures r.Some? ==> (exists j :: index < j < |paths| && paths[j] == r && (forall m :: index < m < j ==> paths[m].None?))
  {
    FirstFrom(paths, index, index + 1)
  }

  function FirstFrom(paths: seq<Option<Path>>, index: int, ii: int): (r: Option<Path>)
    requires 0 <= index < ii <= |paths|
    requires forall m :: index < m < ii ==> paths[m].None?
    ensures r.None? <==> NullAfter(paths, index)
    ensures r.Some? ==> (exists j :: index < j < |paths| && paths[j] == r && (forall m :: index < m < j ==> paths[m].None?))
    decreases |paths| - ii
  {
    if ii == |paths| then None
    else if paths[ii].Some? then paths[ii]
    else FirstFrom(paths, index, ii + 1)
  }

  /**
   * `findPathToReplace` without the working-length test: slot 0 when it is
   * nearer than `d`, slot 1 only when slot 0 was chosen and slot 1 is
   * farther than it but still nearer than `d`.
   */
  function FindPathToReplace(o: Oracle, tc: Connection, d: real): (r: Option<Path>)
    requires IsComplete(tc)
    ensures r.Some? <==> o.distance(tc.s0.value.path) < d
    ensures r.Some? ==> o.distance(r.value) < d && (r.value == tc.s0.value.path || r.value == tc.s1.value.path)
    ensures r.Some? ==>
              (r.value == tc.s1.value.path <==>
                 o.distance(tc.s0.value.path) < o.distance(tc.s1.value.path) < d
                 || tc.s1.value.path == tc.s0.value.path)
  {
    var p0, p1 := tc.s0.value.path, tc.s1.value.path;
    var p := if o.distance(p0) < d then Some(p0) else None;
    if o.distance(p1) < d && p.Some? && o.distance(p1) > o.distance(p.value) then Some(p1) else p
  }

  /** The facts every step of the closed reservation keeps. */
  ghost predicate ClosedKeeps(st: State, point: int, paths: seq<Option<Path>>, r: Reservation)
  {
    Valid(st.conns) && point in st.conns.refs
    && OnlyClears(st.conns, r.state.conns)
    && (r.path.Some? ==>
          r.thrown.None? && r.path in paths
          && CanUse(r.path.value, point, Conn(st.conns, point))
          && var target := Edges.Target(r.path.value.edge, point).value;
          && target in r.state.conns.refs && FreeAt(r.state.conns, target) > 0
          && (FreeAt(st.conns, target) > 0 ==> SameLinks(st.conns, r.state.conns) && r.state.elevation == st.elevation)
          && (FreeAt(st.conns, target) == 0 ==> Elevation(r.state, target) > Elevation(st, target)))
    && (r.path.None? && r.thrown.None? ==> SameLinks(st.conns, r.state.conns) && r.state.elevation == st.elevation)
  }

  /**
   * `reserve(point, connection, paths, stopIndex)`: reads the first
   * candidate's distance (an empty list or a null first candidate raises an
   * exception), then scans the candidates before `stopIndex`.
   */
  function Reserve(o: Oracle, st: State, point: int, paths: seq<Option<Path>>, stop: int): (r: Reservation)
    requires Valid(st.conns) && point in st.conns.refs && stop <= |paths|
    ensures ClosedKeeps(st, point, paths, r)
    ensures r.thrown.Some? && |paths| == 0 ==> r.thrown.value == IndexOutOfBounds
    ensures r.thrown.Some? && |paths| > 0 && paths[0].None? ==> r.thrown.value == NullPointer
    ensures |paths| == 0 || paths[0].None? ==> r.thrown.Some? && r.state == st
  {
    EnsureSameLinks(st.conns, point);
    if |paths| == 0 then Reservation(st, None, Some(IndexOutOfBounds))
    else if paths[0].None? then Reservation(st, None, Some(NullPointer))
    else ReserveFrom(o, st, point, paths, stop, o.distance(paths[0].value), 0)
  }

  function ReserveFrom(o: Oracle, st: State, point: int, paths: seq<Option<Path>>, stop: int,
                       mindist: real, ii: nat): (r: Reservation)
    requires Valid(st.conns) && point in st.conns.refs && stop <= |paths|
    ensures ClosedKeeps(st, point, paths, r)
    ensures Linked(st.conns) && NoSelfLoops(paths) ==>
      Linked(r.state.conns) && Conn(r.state.conns, point) == Conn(st.conns, point)
    decreases |paths| - ii
  {
    EnsureSameLinks(st.conns, point);
    if ii >= stop then Reservation(st, None, None)
    else if paths[ii].None? || !CanUse(paths[ii].value, point, Conn(st.conns, point)) then
      ReserveFrom(o, st, point, paths, stop, mindist, ii + 1)
    else
      TakeKeepsPoint(o, st, point, paths, mindist, ii);
      match Take(o, st, point, paths, mindist, ii)
      case Some(r) => r
      case None =>
        var conns1 := Ensure(st.conns, GetTarget(point, paths[ii].value.edge));
        EnsureKeepsLinked(st.conns, GetTarget(point, paths[ii].value.edge));
        var r := ReserveFrom(o, st.(conns := conns1), point, paths, stop, mindist, ii + 1);
        OnlyClearsTransitive(st.conns, conns1, r.state.conns);
        r
  }

  /**
   * One usable candidate `paths[ii]` of the scan: a target with a free slot
   * takes it; a full target gives up the link `findPathToReplace` picks when
   * its elevation is below the score, and takes it then.  Otherwise (none)
   * the scan goes on, with the target registered.
   */
  function Take(o: Oracle, st: State, point: int, paths: seq<Option<Path>>, mindist: real, ii: nat)
    : (r: Option<Reservation>)
    requires Valid(st.conns) && point in st.conns.refs && ii < |paths| && paths[ii].Some?
    requires CanUse(paths[ii].value, point, Conn(st.conns, point))
    ensures r.Some? ==> ClosedKeeps(st, point, paths, r.value)
    ensures r.None? ==> OnlyClears(st.conns, Ensure(st.conns, GetTarget(point, paths[ii].value.edge)))
  {
    var path := paths[ii].value;
    var target := GetTarget(point, path.edge);
    var conns1 := Ensure(st.conns, target);
    EnsureSameLinks(st.conns, point);
    EnsureSameLinks(st.conns, target);
    var tc := Conn(conns1, target);
    if !IsComplete(tc) then Some(Reservation(st.(conns := conns1), Some(path), None))
    else
      var pn := FindNextValid(paths, ii);
      var tp := if pn.Some? then FindPathToReplace(o, tc, o.distance(pn.value)) else None;
      var h := if pn.Some? then o.score(o.distance(pn.value), mindist, ii, |paths|) else 0.0;
      if tp.Some? && Elevation(st, target) < h then
        var rm := RemoveAt(conns1, target, tp.value);
        RemoveAtOnlyClears(conns1, target, tp.value);
        OnlyClearsTransitive(st.conns, conns1, rm.state);
        if rm.thrown.Some? then Some(Reservation(st.(conns := rm.state), None, rm.thrown))
        else Some(Reservation(State(rm.state, st.elevation[target := h]), Some(path), None))
      else None
  }

  /**
   * `run(iteration, point, index)`: registers the point; no candidate list
   * raises an exception even for a complete point; a complete point is left
   * alone; every empty slot must be filled, and the exception of a slot that
   * cannot be escapes.
   */
  function Run(o: Oracle, st: State, point: int, index: int): (r: Effect<State>)
    requires Valid(st.conns)
    ensures Valid(r.state.conns) && Extends(st.conns, r.state.conns) && point in r.state.conns.refs
    ensures o.data(index).None? ==> r.thrown == Some(IllegalArgument)
    ensures r.thrown.None? ==> o.data(index).Some?
    ensures o.data(index).None? || IsComplete(Before(st.conns, point)) ==>
      SameLinks(st.conns, r.state.conns) && r.state.elevation == st.elevation
  {
    var conns1 := Ensure(st.conns, point);
    EnsureSameLinks(st.conns, point);
    var st1 := st.(conns := conns1);
    match o.data(index)
    case None => Effect(st1, Some(IllegalArgument))
    case Some(paths) =>
      if IsComplete(Conn(conns1, point)) then Effect(st1, None)
      else
        var r := RunSlots(o, st1, point, paths, 0);
        ExtendsTransitive(st.conns, conns1, r.state.conns);
        r
  }

  /** The slot loop of `run` from slot `ii` on; the first failure escapes. */
  function RunSlots(o: Oracle, st: State, point: int, paths: seq<Option<Path>>, ii: nat): (r: Effect<State>)
    requires Valid(st.conns) && point in st.conns.refs && ii <= 2
    ensures Valid(r.state.conns) && Extends(st.conns, r.state.conns) && point in r.state.conns.refs
    decreases 2 - ii
  {
    if ii == 2 then Effect(st, None)
    else if Slot(Conn(st.conns, point), ii).Some? then RunSlots(o, st, point, paths, ii + 1)
    else
      var rv := Reserve(o, st, point, paths, |paths|);
      if rv.thrown.Some? then Effect(rv.state, rv.thrown)
      else if rv.path.None? then Effect(rv.state, Some(Runtime))
      else
        var added := AddPath(rv.state.conns, rv.path.value, true);
        ExtendsTransitive(st.conns, rv.state.conns, added.state);
        if added.thrown.Some? then Effect(rv.state.(conns := added.state), added.thrown)
        else
          var r := RunSlots(o, rv.state.(conns := added.state), point, paths, ii + 1);
          ExtendsTransitive(st.conns, added.state, r.state.conns);
          r
  }

  /** A step of the scan that ends it keeps every link recorded at both ends and leaves the point's slots alone. */
  lemma TakeKeepsPoint(o: Oracle, st: State, point: int, paths: seq<Option<Path>>, mindist: real, ii: nat)
    requires Valid(st.conns) && point in st.conns.refs
    requires ii < |paths| && paths[ii].Some? && CanUse(paths[ii].value, point, Conn(st.conns, point))
    ensures var r := Take(o, st, point, paths, mindist, ii);
      Linked(st.conns) && NoSelfLoops(paths) && r.Some? ==>
        Linked(r.value.state.conns) && Conn(r.value.state.conns, point) == Conn(st.conns, point)
  {
    if !Linked(st.conns) || !NoSelfLoops(paths) {
      return;
    }
    var path := paths[ii].value;
    var target := GetTarget(point, path.edge);
    var conns1 := Ensure(st.conns, target);
    EnsureSameLinks(st.conns, target);
    SameLinksKeepsLinked(st.conns, conns1);
    var tc := Conn(conns1, target);
    if IsComplete(tc) {
      var pn := FindNextValid(paths, ii);
      var tp := if pn.Some? then FindPathToReplace(o, tc, o.distance(pn.value)) else None;
      if tp.Some? {
        GiveUpSparesPoint(conns1, point, target, path, tp.value);
      }
    }
  }

  /**
   * In a store with every link recorded at both ends, a full target that
   * gives up one of its links to take a path from `point` that `point` does
   * not hold gives up a link away from `point`: the removal keeps the record
   * and leaves `point`'s slots alone.
   */
  lemma GiveUpSparesPoint(s: Connections, point: int, target: int, path: Path, e: Path)
    requires Linked(s) && point in s.refs && target in s.refs
    requires HasPoint(path.edge, point) && path.edge.a != path.edge.b && target == GetTarget(point, path.edge)
    requires Count(Conn(s, point), path) == 0
    requires IsComplete(Conn(s, target)) && (e == Conn(s, target).s0.value.path || e == Conn(s, target).s1.value.path)
    ensures !HasPoint(e.edge, point)
    ensures Linked(RemoveAt(s, target, e).state) && Conn(RemoveAt(s, target, e).state, point) == Conn(s, point)
  {
    var tc := Conn(s, target);
    var i := if tc.s0.value.path == e then 0 else 1;
    assert Slot(tc, i).Some? && Slot(tc, i).value.path == e;
    if HasPoint(e.edge, point) {
      assert Edges.Target(e.edge, target).value == point;
      assert Count(Conn(s, point), e) == 1;
      assert SameEdge(e.edge, path.edge);
      CountOfEqualPath(Conn(s, point), e, path);
      assert false;
    }
    assert RemoveAt(s, target, e).thrown.None?;
    RemoveAtKeepsLinked(s, target, e);
  }

  /** Slots before `ii` of the point are occupied. */
  predicate FilledBelow(c: Connection, ii: nat)
  {
    (ii > 0 ==> c.s0.Some?) && (ii > 1 ==> c.s1.Some?)
  }

  /**
   * The slot loop either raises an exception or leaves the point with both
   * slots occupied, and keeps every link recorded at both ends.
   */
  lemma {:induction false} RunSlotsFills(o: Oracle, st: State, point: int, paths: seq<Option<Path>>, ii: nat)
    requires Linked(st.conns) && point in st.conns.refs && ii <= 2 && NoSelfLoops(paths)
    requires FilledBelow(Conn(st.conns, point), ii)
    ensures Linked(RunSlots(o, st, point, paths, ii).state.conns)
    ensures RunSlots(o, st, point, paths, ii).thrown.None? ==>
      IsComplete(Conn(RunSlots(o, st, point, paths, ii).state.conns, point))
    decreases 2 - ii
  {
    if ii == 2 {
      return;
    }
    if Slot(Conn(st.conns, point), ii).Some? {
      RunSlotsFills(o, st, point, paths, ii + 1);
      return;
    }
    var rv := Reserve(o, st, point, paths, |paths|);
    ReservedIsNew(o, st, point, paths);
    if rv.thrown.None? && rv.path.Some? {
      var added := AddPath(rv.state.conns, rv.path.value, true);
      AddReserved(rv.state.conns, point, rv.path.value, ii);
      if added.thrown.None? {
        RunSlotsFills(o, rv.state.(conns := added.state), point, paths, ii + 1);
      }
    }
  }

  /** Adding a new path at an empty slot `ii` of the point, after the slots before it, fills that slot and keeps the links. */
  lemma AddReserved(t: Connections, point: int, path: Path, ii: nat)
    requires Linked(t) && point in t.refs && ii < 2
    requires FilledBelow(Conn(t, point), ii) && Slot(Conn(t, point), ii).None?
    requires path.edge.a != path.edge.b && HasPoint(path.edge, point)
    requires CountAt(t, path.edge.a, path) == 0 && CountAt(t, path.edge.b, path) == 0
    ensures var added := AddPath(t, path, true);
      added.thrown.None? ==> Linked(added.state) && FilledBelow(Conn(added.state, point), ii + 1)
  {
    var added := AddPath(t, path, true);
    if added.thrown.None? {
      AddPathKeepsLinked(t, path, true);
      AddPathGains(t, path, true);
      assert Gains(Conn(t, point), Conn(added.state, point), path);
    }
  }

  /** `Path.distance()` as the class defines it: the constant -1 of `SalesPath.Distance`. */
  ghost predicate StubDistance(o: Oracle)
  {
    forall p :: o.distance(p) == Distance(p)
  }

  /**
   * With the stub distance, the scan of the closed `reserve` changes no link
   * and no elevation and never throws: `findPathToReplace` never answers, so
   * a full target is always passed over.
   */
  lemma {:induction false} StubReserveFromKeepsLinks(o: Oracle, st: State, point: int, paths: seq<Option<Path>>,
                                                     stop: int, mindist: real, ii: nat)
    requires Valid(st.conns) && point in st.conns.refs && stop <= |paths| && StubDistance(o)
    ensures var r := ReserveFrom(o, st, point, paths, stop, mindist, ii);
      r.thrown.None? && SameLinks(st.conns, r.state.conns) && r.state.elevation == st.elevation
      && (r.path.Some? ==> FreeAt(st.conns, GetTarget(point, r.path.value.edge)) > 0
                           || GetTarget(point, r.path.value.edge) !in st.conns.refs)
    decreases |paths| - ii
  {
    EnsureSameLinks(st.conns, point);
    if ii >= stop {
    } else if paths[ii].None? || !CanUse(paths[ii].value, point, Conn(st.conns, point)) {
      StubReserveFromKeepsLinks(o, st, point, paths, stop, mindist, ii + 1);
    } else {
      var path := paths[ii].value;
      var target := GetTarget(point, path.edge);
      var conns1 := Ensure(st.conns, target);
      EnsureSameLinks(st.conns, target);
      var tc := Conn(conns1, target);
      if IsComplete(tc) {
        var pn := FindNextValid(paths, ii);
        if pn.Some? {
          assert o.distance(tc.s0.value.path) == o.distance(pn.value);
        }
        assert Take(o, st, point, paths, mindist, ii).None?;
        StubReserveFromKeepsLinks(o, st.(conns := conns1), point, paths, stop, mindist, ii + 1);
        var r := ReserveFrom(o, st.(conns := conns1), point, paths, stop, mindist, ii + 1);
        SameLinksTransitive(st.conns, conns1, r.state.conns);
        if r.path.Some? {
          var t := GetTarget(point, r.path.value.edge);
          if t in st.conns.refs {
            assert Conn(conns1, t) == Conn(st.conns, t);
          }
        }
      }
    }
  }

  /**
   * With the stub distance, the closed `reserve` changes no link and no
   * elevation: the eviction branch is out of reach.
   */
  lemma StubReserveKeepsLinks(o: Oracle, st: State, point: int, paths: seq<Option<Path>>, stop: int)
    requires Valid(st.conns) && point in st.conns.refs && stop <= |paths| && StubDistance(o)
    ensures var r := Reserve(o, st, point, paths, stop);
      SameLinks(st.conns, r.state.conns) && r.state.elevation == st.elevation
      && (r.thrown.Some? <==> |paths| == 0 || paths[0].None?)
  {
    EnsureSameLinks(st.conns, point);
    if |paths| > 0 && paths[0].Some? {
      StubReserveFromKeepsLinks(o, st, point, paths, stop, o.distance(paths[0].value), 0);
    }
  }

  /**
   * A reserved path leaves every link recorded at both ends and the point's
   * slots as they were, and neither of its two distinct ends holds it yet.
   */
  lemma ReservedIsNew(o: Oracle, st: State, point: int, paths: seq<Option<Path>>)
    requires Linked(st.conns) && point in st.conns.refs && NoSelfLoops(paths)
    ensures var rv := Reserve(o, st, point, paths, |paths|);
      Linked(rv.state.conns) && Conn(rv.state.conns, point) == Conn(st.conns, point) &&
      (rv.thrown.None? && rv.path.Some? ==>
         var path := rv.path.value;
         path.edge.a != path.edge.b && CountAt(rv.state.conns, path.edge.a, path) == 0 &&
         CountAt(rv.state.conns, path.edge.b, path) == 0 && HasPoint(path.edge, point))
  {
    var rv := Reserve(o, st, point, paths, |paths|);
    if |paths| == 0 || paths[0].None? {
      return;
    }
    if rv.thrown.None? && rv.path.Some? {
      var path := rv.path.value;
      var t := rv.state.conns;
      assert Linked(t) && Conn(t, point) == Conn(st.conns, point);
      var target := Edges.Target(path.edge, point).value;
      assert path.edge.a != path.edge.b;
      assert CountAt(t, point, path) == 0;
      if CountAt(t, target, path) > 0 {
        var i := if Holds(Conn(t, target).s0, path) then 0 else 1;
        var e := Slot(Conn(t, target), i).value.path;
        CountOfEqualPath(Conn(t, point), e, path);
        assert false;
      }
    }
  }

  /**
   * A `run` that raises no exception leaves the point with both slots
   * occupied, and every `run` keeps each link recorded at both ends.
   */
  lemma RunFillsPoint(o: Oracle, st: State, point: int, index: int)
    requires Linked(st.conns)
    requires o.data(index).Some? ==> NoSelfLoops(o.data(index).value)
    ensures Linked(Run(o, st, point, index).state.conns)
    ensures Run(o, st, point, index).thrown.None? ==> IsComplete(Conn(Run(o, st, point, index).state.conns, point))
  {
    var conns1 := Ensure(st.conns, point);
    EnsureSameLinks(st.conns, point);
    SameLinksKeepsLinked(st.conns, conns1);
    if o.data(index).Some? && !IsComplete(Conn(conns1, point)) {
      RunSlotsFills(o, st.(conns := conns1), point, o.data(index).value, 0);
    }
  }

  /**
   * `checkOptimal`'s guard: an incomplete point is left alone, and a complete
   * one without a candidate list raises an exception.  The answer says
   * whether the exchange itself would follow.
   */
  function CheckOptimalGuard(o: Oracle, s: Connections, point: int, index: int): (r: Result<bool>)
    requires Valid(s)
    ensures r == Ok(false) <==> !IsComplete(Before(s, point))
    ensures r.Fail? <==> IsComplete(Before(s, point)) && o.data(index).None?
    ensures r.Fail? ==> r.error == IllegalArgument
  {
    var c := Conn(Ensure(s, point), point);
    if !IsComplete(c) then Ok(false)
    else if o.data(index).None? then Fail(IllegalArgument)
    else Ok(true)
  }
}
