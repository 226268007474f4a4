/**
 * The ring of `lazyman.core.model.Ring` and `salesman.core.model.Ring`: a
 * numbered list of paths, closed or open, with a nesting level and the ring
 * that encloses it.  The two classes have the same `add`, `exists`,
 * `validate`, `getPolygon` and `canConnect`; the lazyman one adds
 * `getPoints`.  Paths are edges between point ids, and `Path.equals` is
 * `SameEdge`.  The enclosing ring is kept as its number.
 */
module Rings {
  import opened Common
  import opened Edges

  datatype Ring = Ring(number: int, paths: seq<Edge>, closed: bool, level: int, enclosing: Option<int>)

  /** `Ring(number)`: no paths, closed, level 0, not enclosed. */
  function New(number: int): (r: Ring)
    ensures r.number == number && r.paths == [] && r.closed && r.level == 0 && r.enclosing.None?
  {
    Ring(number, [], true, 0, None)
  }

  /** `Ring(source, closed)`: the same number, level, paths and encloser, with the given closed flag. */
  function Copy(source: Ring, closed: bool): (r: Ring)
    ensures r.number == source.number && r.paths == source.paths && r.level == source.level
    ensures r.enclosing == source.enclosing && r.closed == closed
  {
    source.(closed := closed)
  }

  function Last(s: seq<Edge>): Edge
    requires |s| > 0
  {
    s[|s| - 1]
  }

  /** `e.hasPoint(c.A()) || e.hasPoint(c.B())`: the two paths share an endpoint. */
  predicate Touches(e: Edge, c: Edge)
  {
    HasPoint(e, c.a) || HasPoint(e, c.b)
  }

  /** The scan of `exists` from position `i`. */
  function ExistsFrom(paths: seq<Edge>, c: Edge, i: nat): (b: bool)
    requires i <= |paths|
    ensures b <==> exists j :: i <= j < |paths| && SameEdge(paths[j], c)
    decreases |paths| - i
  {
    if i == |paths| then false else SameEdge(paths[i], c) || ExistsFrom(paths, c, i + 1)
  }

  /** `exists(path)`: some path of the ring equals it, endpoint order aside. */
  function Exists(r: Ring, c: Edge): (b: bool)
    ensures b <==> exists j :: 0 <= j < |r.paths| && SameEdge(r.paths[j], c)
  {
    ExistsFrom(r.paths, c, 0)
  }

  /**
   * Position `k` passes the test of `add`'s out-of-order loop: its path
   * shares an endpoint with `c`, and so does the path before it, if any.
   */
  predicate Insertable(paths: seq<Edge>, c: Edge, k: int)
  {
    0 <= k < |paths| && Touches(paths[k], c) && (k == 0 || Touches(paths[k - 1], c))
  }

  /** The first insertable position at or after `i`, or -1. */
  function FirstInsertable(paths: seq<Edge>, c: Edge, i: nat): (k: int)
    requires i <= |paths|
    ensures k == -1 || (i <= k && Insertable(paths, c, k))
    ensures k == -1 ==> forall j :: i <= j < |paths| ==> !Insertable(paths, c, j)
    ensures k != -1 ==> forall j :: i <= j < k ==> !Insertable(paths, c, j)
    decreases |paths| - i
  {
    if i == |paths| then -1
    else if Insertable(paths, c, i) then i
    else FirstInsertable(paths, c, i + 1)
  }

  /** How a call ends: with a value, with an exception, or never. */
  datatype Outcome = Done(ring: Ring) | Raised(error: Error) | Diverges

  /**
   * `add(connection)` as written.  An empty ring takes the path; a path
   * already present throws; a path touching the last one is appended.
   * Otherwise the loop inserts before the first insertable position and,
   * having no `break`, meets the element it just shifted again and inserts
   * again, without end (`AddAsWrittenLoop`); with no insertable position
   * it throws.
   */
  function AddAsWritten(r: Ring, c: Edge): (o: Outcome)
    ensures o.Raised? ==> o.error == Runtime
    ensures o.Done? ==> o.ring == r.(paths := r.paths + [c])
    ensures o.Diverges? <==>
      (|r.paths| > 0 && !Exists(r, c) && !Touches(Last(r.paths), c) && FirstInsertable(r.paths, c, 0) >= 0)
  {
    if |r.paths| == 0 then Done(r.(paths := [c]))
    else if Exists(r, c) then Raised(Runtime)
    else if Touches(Last(r.paths), c) then Done(r.(paths := r.paths + [c]))
    else if FirstInsertable(r.paths, c, 0) >= 0 then Diverges
    else Raised(Runtime)
  }

  /** The state of the out-of-order loop: the list, `ii`, `lp` and `added`. */
  datatype Scan = Scan(paths: seq<Edge>, ii: nat, lp: Option<Edge>, added: bool)

  /** One turn of the loop body: insert `c` at `ii` when the test passes, then move on. */
  function Step(s: Scan, c: Edge): Scan
    requires s.ii < |s.paths|
  {
    if Inserting(s, c) then Scan(InsertAt(s.paths, s.ii, c), s.ii + 1, Some(s.paths[s.ii]), true)
    else Scan(s.paths, s.ii + 1, Some(s.paths[s.ii]), s.added)
  }

  /** `paths` with `c` inserted at position `i`. */
  function InsertAt(paths: seq<Edge>, i: nat, c: Edge): (r: seq<Edge>)
    requires i <= |paths|
    ensures |r| == |paths| + 1 && r[i] == c && (i < |paths| ==> r[i + 1] == paths[i])
  {
    paths[..i] + [c] + paths[i..]
  }

  /** Up to `n` turns of the loop; it stops once `ii` reaches the (growing) size. */
  function Iterate(s: Scan, c: Edge, n: nat): Scan
    decreases n
  {
    if n == 0 || s.ii >= |s.paths| then s else Iterate(Step(s, c), c, n - 1)
  }

  /** The loop state at the start of turn `j`, before any insertion. */
  function Before(paths: seq<Edge>, j: nat): Scan
    requires j <= |paths|
  {
    Scan(paths, j, if j == 0 then None else Some(paths[j - 1]), false)
  }

  /** The loop is about to insert: the current path touches `c`, and so does `lp`, if set. */
  predicate Inserting(s: Scan, c: Edge)
  {
    s.ii < |s.paths| && Touches(s.paths[s.ii], c) && (s.lp.None? || Touches(s.lp.value, c))
  }

  /** After an insertion the shifted path is current again and `lp` touches: the loop inserts again. */
  lemma StepKeepsInserting(s: Scan, c: Edge)
    requires Inserting(s, c)
    ensures Inserting(Step(s, c), c)
  {
    var t := Step(s, c);
    assert t.paths[t.ii] == s.paths[s.ii];
  }

  /** Once inserting, the loop inserts on every later turn. */
  lemma {:induction false} InsertingForever(s: Scan, c: Edge, n: nat)
    requires Inserting(s, c)
    ensures Inserting(Iterate(s, c, n), c)
    decreases n
  {
    if n > 0 {
      StepKeepsInserting(s, c);
      InsertingForever(Step(s, c), c, n - 1);
    }
  }

  /** At a position that is not insertable, one turn only moves along. */
  lemma StepBefore(paths: seq<Edge>, c: Edge, j: nat)
    requires j < |paths| && !Insertable(paths, c, j)
    ensures Step(Before(paths, j), c) == Before(paths, j + 1)
  {
    var s := Before(paths, j);
    assert s.paths[s.ii] == paths[j];
    assert j > 0 ==> s.lp.value == paths[j - 1];
  }

  /** The first of `n` turns at a position that is not insertable only moves along. */
  lemma IterateBefore(paths: seq<Edge>, c: Edge, j: nat, n: nat)
    requires j < |paths| && !Insertable(paths, c, j) && n > 0
    ensures Iterate(Before(paths, j), c, n) == Iterate(Before(paths, j + 1), c, n - 1)
  {
    StepBefore(paths, c, j);
  }

  /** Through `n` positions that are not insertable the loop only moves along. */
  lemma {:induction false} ScanMoves(paths: seq<Edge>, c: Edge, j: nat, n: nat)
    requires j + n <= |paths| && forall m :: j <= m < j + n ==> !Insertable(paths, c, m)
    ensures Iterate(Before(paths, j), c, n) == Before(paths, j + n)
    decreases n
  {
    if n > 0 {
      IterateBefore(paths, c, j, n);
      ScanMoves(paths, c, j + 1, n - 1);
    }
  }

  /** Skipping `d` positions that are not insertable costs exactly `d` turns. */
  lemma ScanSkips(paths: seq<Edge>, c: Edge, j: nat, d: nat, m: nat)
    requires j + d <= |paths| && forall q :: j <= q < j + d ==> !Insertable(paths, c, q)
    ensures Iterate(Before(paths, j), c, d + m) == Iterate(Before(paths, j + d), c, m)
  {
    IterateSplit(Before(paths, j), c, d, m);
    ScanMoves(paths, c, j, d);
  }

  /** `a + b` turns are `a` turns followed by `b` more. */
  lemma {:induction false} IterateSplit(s: Scan, c: Edge, a: nat, b: nat)
    ensures Iterate(s, c, a + b) == Iterate(Iterate(s, c, a), c, b)
    decreases a
  {
    if a > 0 && s.ii < |s.paths| {
      IterateSplit(Step(s, c), c, a - 1, b);
    }
  }

  /** Before the first insertable position the loop only moves along. */
  lemma ScanUpTo(paths: seq<Edge>, c: Edge, k: int, j: nat, n: nat)
    requires j <= k <= |paths| && forall m :: j <= m < k ==> !Insertable(paths, c, m)
    ensures n <= k - j ==> Iterate(Before(paths, j), c, n) == Before(paths, j + n)
    ensures n > k - j ==> Iterate(Before(paths, j), c, n) == Iterate(Before(paths, k), c, n - (k - j))
  {
    if n <= k - j {
      ScanMoves(paths, c, j, n);
    } else {
      ScanSkips(paths, c, j, k - j, n - (k - j));
    }
  }

  /**
   * The loop behind `AddAsWritten`: when it reports `Diverges`, no number of
   * turns ever brings `ii` up to the size of the list; when it throws, the
   * loop ran through the list without adding.
   */
  lemma AddAsWrittenLoop(r: Ring, c: Edge)
    requires |r.paths| > 0 && !Exists(r, c) && !Touches(Last(r.paths), c)
    ensures AddAsWritten(r, c).Diverges? ==>
      forall n: nat :: Iterate(Before(r.paths, 0), c, n).ii < |Iterate(Before(r.paths, 0), c, n).paths|
    ensures AddAsWritten(r, c).Raised? ==>
      Iterate(Before(r.paths, 0), c, |r.paths|) == Before(r.paths, |r.paths|)
  {
    var k := FirstInsertable(r.paths, c, 0);
    if k >= 0 {
      forall n: nat
        ensures Iterate(Before(r.paths, 0), c, n).ii < |Iterate(Before(r.paths, 0), c, n).paths|
      {
        ScanUpTo(r.paths, c, k, 0, n);
        if n > k {
          InsertingForever(Before(r.paths, k), c, n - k);
        }
      }
    } else {
      ScanUpTo(r.paths, c, |r.paths|, 0, |r.paths|);
    }
  }

  /**
   * `add` with the `break` the out-of-order loop evidently lacks: the path
   * goes in once, before the first insertable position.  Wherever it lands,
   * it shares an endpoint with its neighbours.
   */
  function Add(r: Ring, c: Edge): (res: Result<Ring>)
    ensures res.Fail? ==> res.error == Runtime
    ensures res.Ok? <==>
      (|r.paths| == 0 || (!Exists(r, c) && (Touches(Last(r.paths), c) || exists k :: Insertable(r.paths, c, k))))
    ensures res.Ok? ==> exists k :: InsertedAt(r, c, k, res.value)
    ensures res.Ok? && |r.paths| > 0 && Touches(Last(r.paths), c) ==> res.value.paths == r.paths + [c]
  {
    if |r.paths| == 0 then
      var t := r.(paths := [c]);
      assert InsertedAt(r, c, 0, t);
      Ok(t)
    else if Exists(r, c) then Fail(Runtime)
    else if Touches(Last(r.paths), c) then
      var t := r.(paths := r.paths + [c]);
      assert InsertedAt(r, c, |r.paths|, t);
      Ok(t)
    else
      var k := FirstInsertable(r.paths, c, 0);
      if k < 0 then Fail(Runtime)
      else
        var t := r.(paths := InsertAt(r.paths, k, c));
        assert InsertedAt(r, c, k, t);
        Ok(t)
  }

  /** `t` is `r` with `c` inserted at position `k`, between two paths it shares an endpoint with. */
  predicate InsertedAt(r: Ring, c: Edge, k: int, t: Ring)
  {
    0 <= k <= |r.paths| && t == r.(paths := InsertAt(r.paths, k, c)) &&
    (0 < k ==> Touches(r.paths[k - 1], c)) && (k < |r.paths| ==> Touches(r.paths[k], c))
  }

  /** Where the loop as written ends at all, it ends as the corrected `add` does; it diverges exactly where `add` inserts mid-list. */
  lemma AddAsWrittenAgrees(r: Ring, c: Edge)
    ensures AddAsWritten(r, c).Done? ==> Add(r, c) == Ok(AddAsWritten(r, c).ring)
    ensures AddAsWritten(r, c).Raised? <==> Add(r, c).Fail?
    ensures AddAsWritten(r, c).Diverges? ==> Add(r, c).Ok? && Add(r, c).value.paths != r.paths + [c]
  {
    if AddAsWritten(r, c).Diverges? {
      var k := FirstInsertable(r.paths, c, 0);
      var p := Add(r, c).value.paths;
      SameEdgeEquivalence(c, c, c);
      assert !SameEdge(r.paths[k], c);
      assert p[k] == c && (r.paths + [c])[k] == r.paths[k] != c;
    }
  }

  /** What `validate` accepts: a closed ring ends where it starts; an open one of more than two paths does not. */
  predicate Valid(r: Ring)
  {
    |r.paths| > 0 &&
    (if r.closed then Touches(r.paths[0], Last(r.paths))
     else |r.paths| > 2 ==> !Touches(r.paths[0], Last(r.paths)))
  }

  /** `validate()`: an empty ring fails on `get(0)`; a ring that breaks the closed/open rule throws. */
  function Validate(r: Ring): (res: Result<Ring>)
    ensures res.Ok? <==> Valid(r)
    ensures res.Ok? ==> res.value == r
    ensures |r.paths| == 0 ==> res == Fail(IndexOutOfBounds)
    ensures res.Fail? && |r.paths| > 0 ==> res.error == Runtime
  {
    if |r.paths| == 0 then Fail(IndexOutOfBounds)
    else
      var s := r.paths[0];
      var e := Last(r.paths);
      if r.closed then
        if !HasPoint(s, e.a) && !HasPoint(s, e.b) then Fail(Runtime) else Ok(r)
      else
        if |r.paths| > 2 && (HasPoint(s, e.a) || HasPoint(s, e.b)) then Fail(Runtime) else Ok(r)
  }

  /** The paths run along the corners `v`: path `i` joins corner `i` to corner `i + 1`. */
  ghost predicate Traces(paths: seq<Edge>, v: seq<int>)
  {
    |v| == |paths| + 1 && forall i :: 0 <= i < |paths| ==> SameEdge(paths[i], Edge(v[i], v[i + 1]))
  }

  /** No corner repeats at distance one or two. */
  ghost predicate Spread(v: seq<int>)
  {
    (forall i :: 0 <= i < |v| - 1 ==> v[i] != v[i + 1]) &&
    (forall i :: 0 <= i < |v| - 2 ==> v[i] != v[i + 2])
  }

  /** No corner repeats at all. */
  ghost predicate Simple(v: seq<int>)
  {
    forall i, j :: 0 <= i < j < |v| ==> v[i] != v[j]
  }

  /**
   * The rule `validate` checks holds of rings traced along corners: a closed
   * walk ends where it starts, and a simple open walk of three or more paths
   * does not.
   */
  lemma TracedRingsAreValid(r: Ring, v: seq<int>)
    requires |r.paths| > 0 && Traces(r.paths, v)
    requires r.closed ==> v[0] == v[|v| - 1]
    requires !r.closed ==> Simple(v)
    ensures Valid(r)
  {
    var n := |r.paths|;
    assert SameEdge(r.paths[0], Edge(v[0], v[1]));
    assert SameEdge(r.paths[n - 1], Edge(v[n - 1], v[n]));
    if !r.closed && n > 2 {
      assert v[n - 1] != v[0] && v[n - 1] != v[1] && v[n] != v[0] && v[n] != v[1];
    }
  }

  /** `p.getTarget(lastP.A())`, else `p.getTarget(lastP.B())`. */
  function Across(p: Edge, last: Edge): Option<int>
  {
    match Target(p, last.a)
    case Some(t) => Some(t)
    case None => Target(p, last.b)
  }

  /**
   * The corners `getPolygon` writes from path `ii` on (entries `ii + 1`
   * onward): the end of each path away from the previous one.  A path that
   * meets its predecessor nowhere throws, except the last, which leaves a
   * null corner.
   */
  function Corners(paths: seq<Edge>, ii: nat): (r: Result<seq<Option<int>>>)
    requires 1 <= ii <= |paths|
    ensures r.Ok? ==> |r.value| == |paths| - ii
    ensures r.Fail? ==> r.error == Runtime
    decreases |paths| - ii
  {
    if ii == |paths| then Ok([])
    else
      var t := Across(paths[ii], paths[ii - 1]);
      if t.None? && ii < |paths| - 1 then Fail(Runtime)
      else
        match Corners(paths, ii + 1)
        case Fail(e) => Fail(e)
        case Ok(rest) => Ok([t] + rest)
  }

  /**
   * `getPolygon()` as written: null unless closed and non-empty; otherwise
   * the first path's A and B, in that order, then `Corners`.
   */
  function PolygonAsWritten(r: Ring): (res: Result<Option<seq<Option<int>>>>)
    ensures !r.closed || |r.paths| == 0 ==> res == Ok(None)
    ensures res.Ok? && res.value.Some? ==> r.closed && |res.value.value| == |r.paths| + 1
    ensures res.Fail? ==> res.error == Runtime
  {
    if !r.closed || |r.paths| == 0 then Ok(None)
    else
      match Corners(r.paths, 1)
      case Fail(e) => Fail(e)
      case Ok(rest) => Ok(Some([Some(r.paths[0].a), Some(r.paths[0].b)] + rest))
  }

  /**
   * `getPolygon()` corrected: the first path's two ends in walk order, the
   * one the second path does not touch first; the rest as written.
   */
  function Polygon(r: Ring): (res: Result<Option<seq<Option<int>>>>)
    ensures !r.closed || |r.paths| == 0 ==> res == Ok(None)
    ensures res.Ok? && res.value.Some? ==> r.closed && |res.value.value| == |r.paths| + 1
    ensures res.Fail? ==> res.error == Runtime
  {
    if !r.closed || |r.paths| == 0 then Ok(None)
    else
      var p := r.paths[0];
      var head := if |r.paths| > 1 && HasPoint(r.paths[1], p.a) then [Some(p.b), Some(p.a)] else [Some(p.a), Some(p.b)];
      match Corners(r.paths, 1)
      case Fail(e) => Fail(e)
      case Ok(rest) => Ok(Some(head + rest))
  }

  /** The corners as polygon entries. */
  function Somes(v: seq<int>): (s: seq<Option<int>>)
    ensures |s| == |v| && forall i :: 0 <= i < |v| ==> s[i] == Some(v[i])
  {
    if |v| == 0 then [] else [Some(v[0])] + Somes(v[1..])
  }

  /** Along traced, spread corners, `Corners` yields the corners themselves. */
  lemma {:induction false} CornersTrace(paths: seq<Edge>, v: seq<int>, ii: nat)
    requires Traces(paths, v) && Spread(v) && 1 <= ii <= |paths|
    ensures Corners(paths, ii) == Ok(Somes(v[ii + 1..]))
    decreases |paths| - ii
  {
    if ii < |paths| {
      AcrossTrace(paths[ii], paths[ii - 1], v[ii - 1], v[ii], v[ii + 1]);
      CornersTrace(paths, v, ii + 1);
      assert v[ii + 1..][1..] == v[ii + 2..];
    }
  }

  /** Across the corner `y` from the path `x`-`y`, the path `y`-`z` leads to `z`. */
  lemma AcrossTrace(p: Edge, q: Edge, x: int, y: int, z: int)
    requires SameEdge(p, Edge(y, z)) && SameEdge(q, Edge(x, y))
    requires x != z && y != z && x != y
    ensures Across(p, q) == Some(z)
  {
  }

  /**
   * The corrected polygon of a closed ring of two or more paths traced
   * along spread corners is those corners.
   */
  lemma PolygonTraces(r: Ring, v: seq<int>)
    requires r.closed && |r.paths| >= 2 && Traces(r.paths, v) && Spread(v)
    ensures Polygon(r) == Ok(Some(Somes(v)))
  {
    CornersTrace(r.paths, v, 1);
    assert SameEdge(r.paths[0], Edge(v[0], v[1])) && SameEdge(r.paths[1], Edge(v[1], v[2]));
    HeadTrace(r.paths[0], r.paths[1], v[0], v[1], v[2]);
    SomesSplit(v);
  }

  /** The first path `x`-`y`, followed by `y`-`z`, is entered at `x`. */
  lemma HeadTrace(p: Edge, q: Edge, x: int, y: int, z: int)
    requires SameEdge(p, Edge(x, y)) && SameEdge(q, Edge(y, z))
    requires x != y && x != z
    ensures (if HasPoint(q, p.a) then [Some(p.b), Some(p.a)] else [Some(p.a), Some(p.b)]) == [Some(x), Some(y)]
  {
  }

  /** The first two corners split off `Somes`. */
  lemma SomesSplit(v: seq<int>)
    requires |v| >= 2
    ensures Somes(v) == [Some(v[0]), Some(v[1])] + Somes(v[2..])
  {
  }

  /**
   * The polygon as written misorders a closed triangle whose first path is
   * stored against the walk: paths 2-1, 2-3, 3-1 run along corners 1, 2,
   * 3, 1, but the polygon starts 2, 1.
   */
  lemma PolygonAsWrittenMisorders()
    ensures var r := Ring(0, [Edge(2, 1), Edge(2, 3), Edge(3, 1)], true, 0, None);
      Traces(r.paths, [1, 2, 3, 1]) && Spread([1, 2, 3, 1]) &&
      PolygonAsWritten(r) == Ok(Some([Some(2), Some(1), Some(3), Some(1)])) &&
      Polygon(r) == Ok(Some(Somes([1, 2, 3, 1])))
  {
    var r := Ring(0, [Edge(2, 1), Edge(2, 3), Edge(3, 1)], true, 0, None);
    assert r.paths[1] == Edge(2, 3) && r.paths[2] == Edge(3, 1) && |r.paths| == 3;
    assert Target(Edge(2, 3), 2) == Some(3);
    assert Across(Edge(2, 3), Edge(2, 1)) == Some(3);
    assert !HasPoint(Edge(3, 1), 2) && Target(Edge(3, 1), 3) == Some(1);
    assert Across(Edge(3, 1), Edge(2, 3)) == Some(1);
    assert Corners(r.paths, 3) == Ok([]);
    assert Across(r.paths[2], r.paths[1]) == Some(1);
    assert Corners(r.paths, 2) == Ok([Some(1)] + []);
    assert [Some(1)] + [] == [Some(1)];
    assert Corners(r.paths, 1) == Ok([Some(3)] + [Some(1)]);
    assert [Some(3)] + [Some(1)] == [Some(3), Some(1)];
    assert [Some(2), Some(1)] + [Some(3), Some(1)] == [Some(2), Some(1), Some(3), Some(1)];
    PolygonTraces(r, [1, 2, 3, 1]);
  }

  /** Both versions agree when the first path is stored in walk order. */
  lemma PolygonAgreesOnOrderedStart(r: Ring)
    requires |r.paths| < 2 || !HasPoint(r.paths[1], r.paths[0].a)
    ensures PolygonAsWritten(r) == Polygon(r)
  {
  }

  /**
   * `canConnect(target)`: never a ring with itself; two unenclosed rings
   * always; one enclosed and one not, never; two enclosed ones when they
   * share the encloser or one encloses the other.
   */
  predicate CanConnect(s: Ring, t: Ring)
  {
    if s.number == t.number then false
    else if s.enclosing.Some? || t.enclosing.Some? then
      s.enclosing.Some? && t.enclosing.Some? &&
      (s.enclosing.value == t.enclosing.value || s.enclosing.value == t.number || t.enclosing.value == s.number)
    else true
  }

  /** The nesting rule does not depend on which ring asks. */
  lemma CanConnectSymmetric(s: Ring, t: Ring)
    ensures CanConnect(s, t) <==> CanConnect(t, s)
  {
  }

  /** The endpoints of the paths in order, A before B: the list `getPoints` walks. */
  function Flat(paths: seq<Edge>): (s: seq<int>)
    ensures |s| == 2 * |paths|
  {
    if |paths| == 0 then [] else Flat(paths[..|paths| - 1]) + [Last(paths).a, Last(paths).b]
  }

  /** A sequence with every repeat dropped: each element kept where it first appears. */
  function Dedup(s: seq<int>): (d: seq<int>)
    ensures forall i, j :: 0 <= i < j < |d| ==> d[i] != d[j]
    ensures forall x :: x in d <==> x in s
  {
    if |s| == 0 then []
    else
      var d := Dedup(s[..|s| - 1]);
      assert s == s[..|s| - 1] + [s[|s| - 1]];
      if s[|s| - 1] in d then d else d + [s[|s| - 1]]
  }

  /** The first position of `x` in `s`. */
  function FirstAt(s: seq<int>, x: int): (i: nat)
    requires x in s
    ensures i < |s| && s[i] == x && forall j :: 0 <= j < i ==> s[j] != x
  {
    if s[0] == x then 0 else 1 + FirstAt(s[1..], x)
  }

  /** Extending a sequence leaves the first position of an element it already held. */
  lemma FirstAtSnoc(s: seq<int>, y: int, x: int)
    requires x in s
    ensures FirstAt(s + [y], x) == FirstAt(s, x)
  {
    var i := FirstAt(s, x);
    var t := s + [y];
    assert t[i] == x;
    var k := FirstAt(t, x);
    assert k <= i;
    assert s[k] == x;
  }

  /** `Dedup` keeps elements in order of first appearance. */
  lemma {:induction false} DedupOrder(s: seq<int>)
    ensures forall i, j :: 0 <= i < j < |Dedup(s)| ==> FirstAt(s, Dedup(s)[i]) < FirstAt(s, Dedup(s)[j])
  {
    if |s| > 0 {
      var n := |s| - 1;
      var s0 := s[..n];
      assert s == s0 + [s[n]];
      DedupOrder(s0);
      var d0 := Dedup(s0);
      var d := Dedup(s);
      forall i, j | 0 <= i < j < |d|
        ensures FirstAt(s, d[i]) < FirstAt(s, d[j])
      {
        assert d[i] in d0;
        FirstAtSnoc(s0, s[n], d[i]);
        if j < |d0| {
          FirstAtSnoc(s0, s[n], d[j]);
        } else {
          assert d[j] == s[n] && s[n] !in s0;
          assert FirstAt(s, d[j]) == n;
        }
      }
    }
  }

  /** The loop of `getPoints` over the first `n` paths: A then B of each, when not yet listed. */
  function Listed(paths: seq<Edge>, n: nat): (pts: seq<int>)
    requires n <= |paths|
  {
    if n == 0 then []
    else
      var acc := Listed(paths, n - 1);
      var e := paths[n - 1];
      var acc1 := if e.a in acc then acc else acc + [e.a];
      if e.b in acc1 then acc1 else acc1 + [e.b]
  }

  /** `getPoints()`. */
  function Points(r: Ring): seq<int>
  {
    Listed(r.paths, |r.paths|)
  }

  /** `Dedup` of a sequence extended by one element. */
  lemma DedupSnoc(s: seq<int>, x: int)
    ensures Dedup(s + [x]) == if x in Dedup(s) then Dedup(s) else Dedup(s) + [x]
  {
    assert (s + [x])[..|s|] == s;
  }

  /** `Flat` of the first `n` paths extends that of the first `n - 1` by path `n - 1`'s ends. */
  lemma FlatSnoc(paths: seq<Edge>, n: nat)
    requires 0 < n <= |paths|
    ensures Flat(paths[..n]) == Flat(paths[..n - 1]) + [paths[n - 1].a] + [paths[n - 1].b]
  {
    assert paths[..n][..n - 1] == paths[..n - 1];
  }

  /** The loop lists the endpoints of the paths with repeats dropped. */
  lemma {:induction false} ListedIsDedup(paths: seq<Edge>, n: nat)
    requires n <= |paths|
    ensures Listed(paths, n) == Dedup(Flat(paths[..n]))
  {
    if n > 0 {
      ListedIsDedup(paths, n - 1);
      var f0 := Flat(paths[..n - 1]);
      var e := paths[n - 1];
      var acc := Listed(paths, n - 1);
      var acc1 := if e.a in acc then acc else acc + [e.a];
      DedupSnoc(f0, e.a);
      assert acc1 == Dedup(f0 + [e.a]);
      DedupSnoc(f0 + [e.a], e.b);
      assert Listed(paths, n) == Dedup(f0 + [e.a] + [e.b]);
      FlatSnoc(paths, n);
    }
  }

  /** A point is among the flattened ends exactly when some path has it. */
  lemma {:induction false} FlatHas(paths: seq<Edge>, x: int)
    ensures x in Flat(paths) <==> exists i :: 0 <= i < |paths| && HasPoint(paths[i], x)
  {
    if |paths| > 0 {
      var n := |paths| - 1;
      FlatSnoc(paths, |paths|);
      assert paths[..|paths|] == paths;
      FlatHas(paths[..n], x);
      if exists i :: 0 <= i < |paths| && HasPoint(paths[i], x) {
        var i :| 0 <= i < |paths| && HasPoint(paths[i], x);
        if i < n {
          assert HasPoint(paths[..n][i], x);
        }
      }
    }
  }

  /**
   * `getPoints` lists every endpoint of the ring exactly once, in order of
   * first appearance (A before B within a path).
   */
  lemma PointsAreFirstAppearances(r: Ring)
    ensures Points(r) == Dedup(Flat(r.paths))
    ensures forall i, j :: 0 <= i < j < |Points(r)| ==> Points(r)[i] != Points(r)[j]
    ensures forall x :: x in Points(r) <==> exists i :: 0 <= i < |r.paths| && HasPoint(r.paths[i], x)
    ensures forall i, j :: 0 <= i < j < |Points(r)| ==>
      FirstAt(Flat(r.paths), Points(r)[i]) < FirstAt(Flat(r.paths), Points(r)[j])
  {
    ListedIsDedup(r.paths, |r.paths|);
    assert r.paths[..|r.paths|] == r.paths;
    DedupOrder(Flat(r.paths));
    forall x
      ensures x in Points(r) <==> exists i :: 0 <= i < |r.paths| && HasPoint(r.paths[i], x)
    {
      FlatHas(r.paths, x);
    }
  }
}
