/**
 * `salesman.core.RingProcessor`: merge candidates between two rings.  For
 * every path of one ring and every path of the other, the cheaper of the
 * two crossover reconnections is a candidate, recorded with
 * `delta = new pair - old pair`; the candidates are grouped by the source
 * path's key, one is chosen per ring, and the swap is applied only when
 * its delta, target path included, is not positive.
 *
 * Paths are their edges; the path distance is a parameter (`dist`).  In
 * this generation `Path.distance()` is the constant -1, which
 * `UniformDistanceKeepsFirstPairing` shows makes `findMinPaths` always
 * answer its first pairing.  `data.get(a, b)` is the parameter `get`, and
 * `data.togglePath` calls are returned as a log.
 */
module RingProcessor {
  import opened Common
  import opened Edges
  import Order
  import SalesPath
  import SalesConnections
  import Rings

  /**
   * `Connect`: a candidate joining `source` to `target` by the two paths
   * `p1`, `p2` in place of `sourcePath` (and `targetPath`).  A candidate
   * built without a delta carries `Double.MAX_VALUE`.
   */
  datatype Connect = Connect(source: Rings.Ring, target: Option<Rings.Ring>, p1: Option<Edge>, p2: Option<Edge>,
                             sourcePath: Edge, targetPath: Option<Edge>, delta: real)

  /** The distance of a nullable path, null counting as nothing. */
  function Len(o: Option<Edge>, dist: Edge -> real): real
  {
    if o.Some? then dist(o.value) else 0.0
  }

  /** `getOpenDelta()`: the new paths' distance less the source path's. */
  function OpenDelta(c: Connect, dist: Edge -> real): (d: real)
    ensures d + dist(c.sourcePath) == Len(c.p1, dist) + Len(c.p2, dist)
  {
    Len(c.p1, dist) + Len(c.p2, dist) - dist(c.sourcePath)
  }

  /** The open delta as a sort key. */
  function OpenDeltaOf(dist: Edge -> real): Connect -> real
  {
    (c: Connect) => OpenDelta(c, dist)
  }

  /** With `distance()` answering -1 for every path, the open delta is one less per new path present. */
  lemma OpenDeltaUniform(c: Connect, dist: Edge -> real)
    requires forall e :: dist(e) == -1.0
    ensures OpenDelta(c, dist) == 1.0 - (if c.p1.Some? then 1.0 else 0.0) - (if c.p2.Some? then 1.0 else 0.0)
  {
  }

  // ---------------------------------------------------------------------
  // ConnectSorter
  // ---------------------------------------------------------------------

  /**
   * `ConnectSorter.compare` as written: two nulls are equal and a null
   * first argument sorts last, but the test meant for a null second
   * argument repeats the first one, so a candidate compared with null
   * dereferences null.
   */
  function ConnectSorterAsWritten(o1: Option<Connect>, o2: Option<Connect>): (r: Result<int>)
    ensures r.Fail? <==> o1.Some? && o2.None?
    ensures r.Fail? ==> r.error == NullPointer
    ensures r.Ok? && o1.Some? ==> Sgn(r.value) == SgnR(o1.value.delta - o2.value.delta)
  {
    if o1.None? && o2.None? then Ok(0)
    else if o1.None? then Ok(1)
    else if o2.None? then Fail(NullPointer)
    else Ok(Order.Step(o1.value.delta - o2.value.delta))
  }

  /** The delta of a nullable candidate, as the comparator's key. */
  function Deltas(o: Option<Connect>): Option<real>
  {
    if o.Some? then Some(o.value.delta) else None
  }

  /** `ConnectSorter.compare` as evidently intended: candidates by delta, nulls last. */
  function ConnectSorter(o1: Option<Connect>, o2: Option<Connect>): (v: int)
    ensures o1.Some? && o2.Some? ==> Sgn(v) == SgnR(o1.value.delta - o2.value.delta)
    ensures o1.Some? && o2.None? ==> v < 0
    ensures o1.None? && o2.Some? ==> v > 0
    ensures o1.None? && o2.None? ==> v == 0
  {
    Order.NullsLast(Deltas(o1), Deltas(o2))
  }

  /** Swapping the arguments of the intended comparator flips its sign. */
  lemma ConnectSorterAntisymmetric(o1: Option<Connect>, o2: Option<Connect>)
    ensures Sgn(ConnectSorter(o1, o2)) == -Sgn(ConnectSorter(o2, o1))
  {
    Order.NullsLastAntisymmetric(Deltas(o1), Deltas(o2));
  }

  /** Wherever the comparator as written answers, it answers as intended. */
  lemma ConnectSorterAgrees(o1: Option<Connect>, o2: Option<Connect>)
    ensures ConnectSorterAsWritten(o1, o2).Ok? ==> ConnectSorterAsWritten(o1, o2).value == ConnectSorter(o1, o2)
  {
  }

  /**
   * The comparator as written throws one way round and answers the other:
   * it breaks the comparator contract's rule that `compare(x, y)` throws
   * exactly when `compare(y, x)` does.
   */
  lemma ConnectSorterAsWrittenThrowsOneWay(c: Connect)
    ensures ConnectSorterAsWritten(Some(c), None) == Fail(NullPointer)
    ensures ConnectSorterAsWritten(None, Some(c)) == Ok(1)
    ensures ConnectSorter(Some(c), None) < 0
  {
  }

  // ---------------------------------------------------------------------
  // canConnect and findMinPaths
  // ---------------------------------------------------------------------

  /** `canConnect`: the same nesting rule as the rings' own; it holds both ways round or neither. */
  lemma CanConnectRule(source: Rings.Ring, target: Rings.Ring)
    ensures Rings.CanConnect(source, target) ==> source.number != target.number
    ensures Rings.CanConnect(source, target) <==> Rings.CanConnect(target, source)
    ensures source.enclosing.None? && target.enclosing.None? ==>
      (Rings.CanConnect(source, target) <==> source.number != target.number)
    ensures source.enclosing.None? != target.enclosing.None? ==> !Rings.CanConnect(source, target)
  {
    Rings.CanConnectSymmetric(source, target);
  }

  /** The first pairing of `findMinPaths`: A to A and B to B. */
  function Straight(p1: Edge, p2: Edge): ((int, int), (int, int))
  {
    ((p1.a, p2.a), (p1.b, p2.b))
  }

  /** The second pairing: A to B and B to A. */
  function Crossed(p1: Edge, p2: Edge): ((int, int), (int, int))
  {
    ((p1.a, p2.b), (p1.b, p2.a))
  }

  /** Both paths of a pairing, when the data has them. */
  function Lookup(q: ((int, int), (int, int)), get: (int, int) -> Option<Edge>): Option<(Edge, Edge)>
  {
    var pa := get(q.0.0, q.0.1);
    var pb := get(q.1.0, q.1.1);
    if pa.Some? && pb.Some? then Some((pa.value, pb.value)) else None
  }

  /** The summed distance of two paths. */
  function Cost(m: (Edge, Edge), dist: Edge -> real): real
  {
    dist(m.0) + dist(m.1)
  }

  /** Both pairings' paths are in the data. */
  predicate Found(p1: Edge, p2: Edge, get: (int, int) -> Option<Edge>)
  {
    Lookup(Straight(p1, p2), get).Some? && Lookup(Crossed(p1, p2), get).Some?
  }

  /**
   * `findMinPaths(p1, p2)`: the cheaper of the two reconnections of the
   * four endpoints, the first one on a tie.  A missing path of the first
   * pairing is reported; one of the second is dereferenced.
   */
  function FindMinPaths(p1: Edge, p2: Edge, get: (int, int) -> Option<Edge>, dist: Edge -> real)
    : (r: Result<(Edge, Edge)>)
    ensures r.Ok? <==> Found(p1, p2, get)
    ensures Lookup(Straight(p1, p2), get).None? ==> r == Fail(Runtime)
    ensures Lookup(Straight(p1, p2), get).Some? && r.Fail? ==> r.error == NullPointer
    ensures r.Ok? ==> r.value == Lookup(Straight(p1, p2), get).value || r.value == Lookup(Crossed(p1, p2), get).value
    ensures r.Ok? ==>
      Cost(r.value, dist) <= Cost(Lookup(Straight(p1, p2), get).value, dist) &&
      Cost(r.value, dist) <= Cost(Lookup(Crossed(p1, p2), get).value, dist)
    ensures r.Ok? && r.value != Lookup(Straight(p1, p2), get).value ==>
      Cost(r.value, dist) < Cost(Lookup(Straight(p1, p2), get).value, dist)
  {
    var pa := get(p1.a, p2.a);
    if pa.None? then Fail(Runtime)
    else
      var pb := get(p1.b, p2.b);
      if pb.None? then Fail(Runtime)
      else
        var d1 := dist(pa.value) + dist(pb.value);
        var qa := get(p1.a, p2.b);
        var qb := get(p1.b, p2.a);
        if qa.None? || qb.None? then Fail(NullPointer)
        else
          var d2 := dist(qa.value) + dist(qb.value);
          if d2 < d1 then Ok((qa.value, qb.value)) else Ok((pa.value, pb.value))
  }

  /** When every path has the same distance, as `distance()` makes it here, the first pairing always wins. */
  lemma UniformDistanceKeepsFirstPairing(p1: Edge, p2: Edge, get: (int, int) -> Option<Edge>, dist: Edge -> real, d: real)
    requires forall e :: dist(e) == d
    ensures FindMinPaths(p1, p2, get, dist).Ok? ==>
      FindMinPaths(p1, p2, get, dist).value == Lookup(Straight(p1, p2), get).value
  {
  }

  // ---------------------------------------------------------------------
  // connectClosedRings
  // ---------------------------------------------------------------------

  /** A `togglePath(a, b, usable)` call on the distance data. */
  datatype Toggle = Toggle(a: int, b: int, usable: bool)

  /**
   * The candidate for one source path and one target path: their cheaper
   * reconnection, with the delta of the new pair less both old paths.
   */
  function Crossing(source: Rings.Ring, target: Rings.Ring, sp: Edge, tp: Edge,
                    get: (int, int) -> Option<Edge>, dist: Edge -> real): (c: Connect)
    requires Found(sp, tp, get)
    ensures c.p1.Some? && c.p2.Some? && c.sourcePath == sp && c.targetPath == Some(tp)
    ensures OpenDelta(c, dist) - dist(tp) == c.delta
  {
    var m := FindMinPaths(sp, tp, get, dist).value;
    Connect(source, Some(target), Some(m.0), Some(m.1), sp, Some(tp), (dist(m.0) + dist(m.1)) - (dist(sp) + dist(tp)))
  }

  /** Every source path meets every target path in the data. */
  ghost predicate AllFound(sps: seq<Edge>, tps: seq<Edge>, get: (int, int) -> Option<Edge>)
  {
    forall i, j :: 0 <= i < |sps| && 0 <= j < |tps| ==> Found(sps[i], tps[j], get)
  }

  /**
   * A candidate recorded between paths of `sps` and `tps`: it joins `source`
   * to `target` through the cheaper reconnection of its two paths.
   */
  ghost predicate IsCrossing(c: Connect, source: Rings.Ring, target: Rings.Ring, sps: seq<Edge>, tps: seq<Edge>,
                             get: (int, int) -> Option<Edge>, dist: Edge -> real)
  {
    c.sourcePath in sps && c.targetPath.Some? && c.targetPath.value in tps &&
    Found(c.sourcePath, c.targetPath.value, get) &&
    c == Crossing(source, target, c.sourcePath, c.targetPath.value, get, dist)
  }

  /** The inner loop: one candidate per target path, in order. */
  function RowConnects(source: Rings.Ring, target: Rings.Ring, sp: Edge, tps: seq<Edge>,
                       get: (int, int) -> Option<Edge>, dist: Edge -> real): (r: Result<seq<Connect>>)
    ensures r.Ok? <==> forall j :: 0 <= j < |tps| ==> Found(sp, tps[j], get)
    ensures r.Ok? ==> |r.value| == |tps| && forall j :: 0 <= j < |tps| ==>
      Found(sp, tps[j], get) && r.value[j] == Crossing(source, target, sp, tps[j], get, dist)
  {
    if |tps| == 0 then Ok([])
    else
      match FindMinPaths(sp, tps[0], get, dist)
      case Fail(e) => Fail(e)
      case Ok(m) =>
        match RowConnects(source, target, sp, tps[1..], get, dist)
        case Fail(e) =>
          var j :| 0 <= j < |tps[1..]| && !Found(sp, tps[1..][j], get);
          assert tps[1..][j] == tps[j + 1];
          Fail(e)
        case Ok(rest) =>
          assert forall j :: 1 <= j < |tps| ==> tps[j] == tps[1..][j - 1];
          Ok([Crossing(source, target, sp, tps[0], get, dist)] + rest)
  }

  /** The outer loop: the rows of the source paths laid end to end. */
  function ClosedConnects(source: Rings.Ring, target: Rings.Ring, sps: seq<Edge>, tps: seq<Edge>,
                          get: (int, int) -> Option<Edge>, dist: Edge -> real): (r: Result<seq<Connect>>)
    ensures r.Ok? <==> AllFound(sps, tps, get)
    ensures r.Ok? ==> |r.value| == |sps| * |tps|
    ensures r.Ok? ==> forall c :: c in r.value ==> IsCrossing(c, source, target, sps, tps, get, dist)
  {
    if |sps| == 0 then Ok([])
    else
      match RowConnects(source, target, sps[0], tps, get, dist)
      case Fail(e) =>
        var j :| 0 <= j < |tps| && !Found(sps[0], tps[j], get);
        Fail(e)
      case Ok(row) =>
        match ClosedConnects(source, target, sps[1..], tps, get, dist)
        case Fail(e) =>
          var i, j :| 0 <= i < |sps[1..]| && 0 <= j < |tps| && !Found(sps[1..][i], tps[j], get);
          assert sps[1..][i] == sps[i + 1];
          Fail(e)
        case Ok(rest) =>
          RowsFound(sps, tps, get);
          assert |row + rest| == |tps| + (|sps| - 1) * |tps| == |sps| * |tps|;
          assert forall c :: c in row ==> IsCrossing(c, source, target, sps, tps, get, dist) by {
            forall c | c in row ensures IsCrossing(c, source, target, sps, tps, get, dist) {
              var j :| 0 <= j < |row| && row[j] == c;
              assert tps[j] in tps;
            }
          }
          assert forall c :: c in rest ==> IsCrossing(c, source, target, sps, tps, get, dist) by {
            forall c | c in rest ensures IsCrossing(c, source, target, sps, tps, get, dist) {
              assert IsCrossing(c, source, target, sps[1..], tps, get, dist);
            }
          }
          Ok(row + rest)
  }

  /** The first source path and the others each meet every target path when all of them do. */
  lemma RowsFound(sps: seq<Edge>, tps: seq<Edge>, get: (int, int) -> Option<Edge>)
    requires |sps| > 0
    requires forall j :: 0 <= j < |tps| ==> Found(sps[0], tps[j], get)
    requires AllFound(sps[1..], tps, get)
    ensures AllFound(sps, tps, get)
  {
    forall i, j | 0 <= i < |sps| && 0 <= j < |tps| ensures Found(sps[i], tps[j], get) {
      if i > 0 {
        assert sps[i] == sps[1..][i - 1];
      }
    }
  }

  /** Every pair of a source path and a target path has its candidate among the recorded ones. */
  lemma {:induction false} ClosedConnectsCover(source: Rings.Ring, target: Rings.Ring, sps: seq<Edge>, tps: seq<Edge>,
                                               get: (int, int) -> Option<Edge>, dist: Edge -> real)
    requires AllFound(sps, tps, get)
    ensures forall i, j :: 0 <= i < |sps| && 0 <= j < |tps| ==>
      Crossing(source, target, sps[i], tps[j], get, dist) in ClosedConnects(source, target, sps, tps, get, dist).value
  {
    if |sps| > 0 {
      assert AllFound(sps[1..], tps, get) by {
        forall i, j | 0 <= i < |sps[1..]| && 0 <= j < |tps| ensures Found(sps[1..][i], tps[j], get) {
          assert sps[1..][i] == sps[i + 1];
        }
      }
      ClosedConnectsCover(source, target, sps[1..], tps, get, dist);
      var row := RowConnects(source, target, sps[0], tps, get, dist).value;
      var rest := ClosedConnects(source, target, sps[1..], tps, get, dist).value;
      assert ClosedConnects(source, target, sps, tps, get, dist).value == row + rest;
      forall i, j | 0 <= i < |sps| && 0 <= j < |tps|
        ensures Crossing(source, target, sps[i], tps[j], get, dist) in row + rest
      {
        if i == 0 {
          assert row[j] in row;
        } else {
          assert sps[i] == sps[1..][i - 1];
        }
      }
    }
  }

  /** The `togglePath` calls for the candidates' two paths each, in order. */
  function Toggles(cs: seq<Connect>, usable: bool): (t: seq<Toggle>)
    requires forall c :: c in cs ==> c.p1.Some? && c.p2.Some?
    ensures |t| == 2 * |cs|
    ensures forall x :: x in t ==> x.usable == usable
    ensures forall c :: c in cs ==>
      Toggle(c.p1.value.a, c.p1.value.b, usable) in t && Toggle(c.p2.value.a, c.p2.value.b, usable) in t
  {
    if |cs| == 0 then []
    else
      var c := cs[0];
      [Toggle(c.p1.value.a, c.p1.value.b, usable), Toggle(c.p2.value.a, c.p2.value.b, usable)] + Toggles(cs[1..], usable)
  }

  /** What `connectClosedRings` records: the candidates, and the data toggles it made. */
  datatype Recorded = Recorded(connects: seq<Connect>, toggles: seq<Toggle>)

  /**
   * `connectClosedRings(source, target)`: one candidate per pair of a
   * source path and a target path, source-major; both new paths of each
   * are then marked unusable.  A missing path fails `findMinPaths`.
   */
  function ConnectClosedRings(source: Rings.Ring, target: Rings.Ring, get: (int, int) -> Option<Edge>, dist: Edge -> real)
    : (r: Result<Recorded>)
    ensures r.Ok? <==> AllFound(source.paths, target.paths, get)
    ensures r.Ok? ==> |r.value.connects| == |source.paths| * |target.paths|
    ensures r.Ok? ==> forall c :: c in r.value.connects ==>
      IsCrossing(c, source, target, source.paths, target.paths, get, dist)
    ensures r.Ok? ==> forall i, j :: 0 <= i < |source.paths| && 0 <= j < |target.paths| ==>
      Crossing(source, target, source.paths[i], target.paths[j], get, dist) in r.value.connects
    ensures r.Ok? ==> |r.value.toggles| == 2 * |r.value.connects| && forall x :: x in r.value.toggles ==> !x.usable
    ensures r.Ok? ==> forall c :: c in r.value.connects ==>
      (c.p1.Some? && c.p2.Some? &&
       Toggle(c.p1.value.a, c.p1.value.b, false) in r.value.toggles &&
       Toggle(c.p2.value.a, c.p2.value.b, false) in r.value.toggles)
  {
    match ClosedConnects(source, target, source.paths, target.paths, get, dist)
    case Fail(e) => Fail(e)
    case Ok(cs) =>
      ClosedConnectsCover(source, target, source.paths, target.paths, get, dist);
      Ok(Recorded(cs, Toggles(cs, false)))
  }

  /** The resolve step's swap test on a recorded candidate is its recorded delta against zero. */
  lemma SwapTestIsDelta(c: Connect, source: Rings.Ring, target: Rings.Ring, sps: seq<Edge>, tps: seq<Edge>,
                        get: (int, int) -> Option<Edge>, dist: Edge -> real)
    requires IsCrossing(c, source, target, sps, tps, get, dist)
    ensures (OpenDelta(c, dist) - dist(c.targetPath.value) <= 0.0) <==> c.delta <= 0.0
  {
  }

  // ---------------------------------------------------------------------
  // addConnect
  // ---------------------------------------------------------------------

  /** Candidates grouped by the key of their source path. */
  type Groups = map<PairKey, seq<Connect>>

  /** The list under a key, empty when absent. */
  function At(g: Groups, k: PairKey): seq<Connect>
  {
    if k in g then g[k] else []
  }

  /** `addConnect(connects, connect)`: appends to the list under the source path's key, creating it if needed. */
  function AddConnect(g: Groups, c: Connect): (r: Groups)
    ensures r.Keys == g.Keys + {PathKey(c.sourcePath)}
    ensures r[PathKey(c.sourcePath)] == At(g, PathKey(c.sourcePath)) + [c]
    ensures forall k :: k in g && k != PathKey(c.sourcePath) ==> r[k] == g[k]
  {
    g[PathKey(c.sourcePath) := At(g, PathKey(c.sourcePath)) + [c]]
  }

  /** `addConnect(connects, list)`: each candidate in turn. */
  function AddConnects(g: Groups, cs: seq<Connect>): Groups
  {
    if |cs| == 0 then g else AddConnect(AddConnects(g, cs[..|cs| - 1]), cs[|cs| - 1])
  }

  /** The candidates of `cs` under key `k`, in their order. */
  function Group(cs: seq<Connect>, k: PairKey): (r: seq<Connect>)
    ensures forall c :: c in r ==> c in cs && PathKey(c.sourcePath) == k
    ensures forall c :: c in cs && PathKey(c.sourcePath) == k ==> c in r
  {
    if |cs| == 0 then []
    else
      var c := cs[|cs| - 1];
      var rest := Group(cs[..|cs| - 1], k);
      assert forall x :: x in cs ==> x in cs[..|cs| - 1] || x == c;
      if PathKey(c.sourcePath) == k then rest + [c] else rest
  }

  /**
   * Grouping keeps every candidate and its order: a key's list is what it
   * held before followed by the added candidates with that key, and the key
   * is present exactly when it was or one of them has it.
   */
  lemma {:induction false} AddConnectsGroups(g: Groups, cs: seq<Connect>, k: PairKey)
    ensures k in AddConnects(g, cs) <==> k in g || Group(cs, k) != []
    ensures k in AddConnects(g, cs) ==> AddConnects(g, cs)[k] == At(g, k) + Group(cs, k)
  {
    if |cs| > 0 {
      var pre := cs[..|cs| - 1];
      var c := cs[|cs| - 1];
      AddConnectsGroups(g, pre, k);
      if PathKey(c.sourcePath) != k {
        assert Group(cs, k) == Group(pre, k);
      } else {
        assert Group(cs, k) == Group(pre, k) + [c];
      }
    }
  }

  // ---------------------------------------------------------------------
  // resolveClosedConnect: the choice
  // ---------------------------------------------------------------------

  /** The running state of the merge over a key's several candidates. */
  datatype Merged = Merged(p1: Option<Edge>, p2: Option<Edge>, target: Option<Rings.Ring>, targetPath: Option<Edge>)

  /**
   * One candidate of the merge: it takes over `p1` (`p2`) when none is held
   * or its own is strictly shorter, and keeps its target only when it took
   * over both and both rings are closed; taking over one clears the target.
   */
  function MergeStep(m: Merged, c: Connect, dist: Edge -> real): (r: Result<Merged>)
    ensures r.Fail? <==> (m.p1.Some? && c.p1.None?) || (m.p2.Some? && c.p2.None?)
  {
    if m.p1.Some? && c.p1.None? then Fail(NullPointer)
    else if m.p2.Some? && c.p2.None? then Fail(NullPointer)
    else
      var b1 := m.p1.None? || dist(c.p1.value) < dist(m.p1.value);
      var b2 := m.p2.None? || dist(c.p2.value) < dist(m.p2.value);
      var q1 := if b1 then c.p1 else m.p1;
      var q2 := if b2 then c.p2 else m.p2;
      if b1 && b2 && c.source.closed && c.target.Some? && c.target.value.closed then
        Ok(Merged(q1, q2, c.target, c.targetPath))
      else if b1 || b2 then Ok(Merged(q1, q2, None, None))
      else Ok(m)
  }

  /** The merge loop over a key's candidates, left to right. */
  function MergeAll(cs: seq<Connect>, dist: Edge -> real): (r: Result<Merged>)
  {
    if |cs| == 0 then Ok(Merged(None, None, None, None))
    else
      match MergeAll(cs[..|cs| - 1], dist)
      case Fail(e) => Fail(e)
      case Ok(m) => MergeStep(m, cs[|cs| - 1], dist)
  }

  /** Every candidate carries both new paths, as the recorded ones do. */
  ghost predicate Full(cs: seq<Connect>)
  {
    forall c :: c in cs ==> c.p1.Some? && c.p2.Some?
  }

  /** The first new path's distance, as a sort key. */
  function P1Key(dist: Edge -> real): Connect -> real
  {
    (c: Connect) => Len(c.p1, dist)
  }

  /** The second new path's distance, as a sort key. */
  function P2Key(dist: Edge -> real): Connect -> real
  {
    (c: Connect) => Len(c.p2, dist)
  }

  /** A kept target comes from a candidate of `cs` that joins two closed rings and supplied both picked paths. */
  ghost predicate Supplied(cs: seq<Connect>, m: Merged)
  {
    m.target.Some? ==>
      exists c :: (c in cs && c.source.closed && c.target == m.target && m.target.value.closed &&
        c.targetPath == m.targetPath && c.p1 == m.p1 && c.p2 == m.p2)
  }

  /** One merge step keeps the first path the earliest shortest one. */
  lemma MergeStepP1(pre: seq<Connect>, c: Connect, m: Merged, dist: Edge -> real)
    requires Full(pre) && c.p1.Some? && c.p2.Some?
    requires |pre| == 0 ==> m.p1.None?
    requires |pre| > 0 ==> m.p1 == pre[Order.FirstLeast(pre, P1Key(dist))].p1
    ensures MergeStep(m, c, dist).Ok?
    ensures MergeStep(m, c, dist).value.p1 == (pre + [c])[Order.FirstLeast(pre + [c], P1Key(dist))].p1
  {
    if |pre| > 0 {
      Order.FirstLeastSnoc(pre, c, P1Key(dist));
      var f := Order.FirstLeast(pre, P1Key(dist));
      assert pre[f] in pre;
      assert (pre + [c])[f] == pre[f];
    } else {
      assert pre + [c] == [c];
    }
  }

  /** One merge step keeps the second path the earliest shortest one. */
  lemma MergeStepP2(pre: seq<Connect>, c: Connect, m: Merged, dist: Edge -> real)
    requires Full(pre) && c.p1.Some? && c.p2.Some?
    requires |pre| == 0 ==> m.p2.None?
    requires |pre| > 0 ==> m.p2 == pre[Order.FirstLeast(pre, P2Key(dist))].p2
    ensures MergeStep(m, c, dist).Ok?
    ensures MergeStep(m, c, dist).value.p2 == (pre + [c])[Order.FirstLeast(pre + [c], P2Key(dist))].p2
  {
    if |pre| > 0 {
      Order.FirstLeastSnoc(pre, c, P2Key(dist));
      var f := Order.FirstLeast(pre, P2Key(dist));
      assert pre[f] in pre;
      assert (pre + [c])[f] == pre[f];
    } else {
      assert pre + [c] == [c];
    }
  }

  /** One merge step keeps a kept target supplied. */
  lemma MergeStepTarget(pre: seq<Connect>, c: Connect, m: Merged, dist: Edge -> real)
    requires MergeStep(m, c, dist).Ok? && Supplied(pre, m)
    ensures Supplied(pre + [c], MergeStep(m, c, dist).value)
  {
    var r := MergeStep(m, c, dist).value;
    if r.target.Some? {
      if r == m {
        var w :| w in pre && w.source.closed && w.target == m.target && m.target.value.closed &&
          w.targetPath == m.targetPath && w.p1 == m.p1 && w.p2 == m.p2;
        assert w in pre + [c];
      } else {
        assert c in pre + [c];
      }
    }
  }

  /**
   * The merge picks, for each new path separately, the one of the earliest
   * candidate where it is shortest; it keeps a target only from a candidate
   * that supplied both picked paths and joins two closed rings.
   */
  lemma {:induction false} MergeAllPicksShortest(cs: seq<Connect>, dist: Edge -> real)
    requires Full(cs)
    ensures MergeAll(cs, dist).Ok?
    ensures |cs| > 0 ==> MergeAll(cs, dist).value.p1 == cs[Order.FirstLeast(cs, P1Key(dist))].p1
    ensures |cs| > 0 ==> MergeAll(cs, dist).value.p2 == cs[Order.FirstLeast(cs, P2Key(dist))].p2
    ensures Supplied(cs, MergeAll(cs, dist).value)
    ensures |cs| == 0 ==> MergeAll(cs, dist).value == Merged(None, None, None, None)
  {
    if |cs| > 0 {
      var pre := cs[..|cs| - 1];
      var c := cs[|cs| - 1];
      assert cs == pre + [c];
      assert c in cs;
      assert Full(pre) by {
        forall x | x in pre ensures x.p1.Some? && x.p2.Some? {
          assert x in cs;
        }
      }
      MergeAllPicksShortest(pre, dist);
      var m := MergeAll(pre, dist).value;
      assert MergeAll(cs, dist) == MergeStep(m, c, dist);
      MergeStepP1(pre, c, m, dist);
      MergeStepP2(pre, c, m, dist);
      MergeStepTarget(pre, c, m, dist);
    }
  }

  /** A key's contribution to the choice: its candidate, and whether it came from the merge. */
  datatype Entry = Entry(connect: Connect, merged: bool)

  /**
   * The candidates the choice loop considers, in key order: a key with one
   * candidate offers it, a key with several offers their merge as a new
   * candidate for `ring` on the first one's source path; empty lists are
   * skipped.
   */
  function Candidates(ring: Rings.Ring, g: Groups, order: seq<PairKey>, dist: Edge -> real): (r: Result<seq<Entry>>)
    requires forall k :: k in order ==> k in g
    ensures r.Ok? ==> |r.value| <= |order|
    ensures r.Ok? ==> forall e :: e in r.value && !e.merged ==> exists k :: k in order && g[k] == [e.connect]
    ensures r.Ok? ==> forall e :: e in r.value && e.merged ==> e.connect.source == ring
  {
    if |order| == 0 then Ok([])
    else
      var k := order[|order| - 1];
      assert k in order;
      match Candidates(ring, g, order[..|order| - 1], dist)
      case Fail(e) => Fail(e)
      case Ok(es) =>
        assert forall x :: x in order[..|order| - 1] ==> x in order;
        var cs := g[k];
        if |cs| == 0 then Ok(es)
        else if |cs| == 1 then
          assert cs == [cs[0]];
          Ok(es + [Entry(cs[0], false)])
        else
          match MergeAll(cs, dist)
          case Fail(e) => Fail(e)
          case Ok(m) =>
            Ok(es + [Entry(Connect(ring, m.target, m.p1, m.p2, cs[0].sourcePath, m.targetPath, MAX_DOUBLE), true)])
  }

  /** The choice loop's state: the chosen candidate and the delta to beat, `Double.MAX_VALUE` at first. */
  datatype Choice = Choice(connect: Option<Connect>, delta: real)

  /**
   * The choice loop as written: a single candidate is taken when its open
   * delta beats the delta so far, which it then becomes; a merged one is
   * taken when the delta so far exceeds its open delta, but the delta so
   * far is left as it was.
   */
  function PickAsWritten(es: seq<Entry>, dist: Edge -> real): Choice
  {
    if |es| == 0 then Choice(None, MAX_DOUBLE)
    else
      var ch := PickAsWritten(es[..|es| - 1], dist);
      var e := es[|es| - 1];
      var d := OpenDelta(e.connect, dist);
      if d < ch.delta then
        if e.merged then Choice(Some(e.connect), ch.delta) else Choice(Some(e.connect), d)
      else ch
  }

  /** The choice loop as evidently intended: whichever candidate is taken, its open delta is the one to beat. */
  function Pick(es: seq<Entry>, dist: Edge -> real): Choice
  {
    if |es| == 0 then Choice(None, MAX_DOUBLE)
    else
      var ch := Pick(es[..|es| - 1], dist);
      var e := es[|es| - 1];
      var d := OpenDelta(e.connect, dist);
      if d < ch.delta then Choice(Some(e.connect), d) else ch
  }

  /** The candidates' connects. */
  function Connects(es: seq<Entry>): (cs: seq<Connect>)
    ensures |cs| == |es| && forall i :: 0 <= i < |es| ==> cs[i] == es[i].connect
  {
    if |es| == 0 then [] else Connects(es[..|es| - 1]) + [es[|es| - 1].connect]
  }

  /** Every candidate's open delta is below `Double.MAX_VALUE`, as any finite sum of distances is. */
  ghost predicate Finite(es: seq<Entry>, dist: Edge -> real)
  {
    forall e :: e in es ==> OpenDelta(e.connect, dist) < MAX_DOUBLE
  }

  /**
   * The intended choice is the earliest candidate of least open delta, and
   * there is one exactly when there is a candidate.
   */
  lemma {:induction false} PickIsEarliestLeast(es: seq<Entry>, dist: Edge -> real)
    requires Finite(es, dist)
    ensures Pick(es, dist).connect.Some? <==> |es| > 0
    ensures |es| > 0 ==>
      Pick(es, dist).connect.value == es[Order.FirstLeast(Connects(es), OpenDeltaOf(dist))].connect &&
      Pick(es, dist).delta == OpenDelta(Pick(es, dist).connect.value, dist)
  {
    if |es| > 0 {
      var pre := es[..|es| - 1];
      var e := es[|es| - 1];
      assert e in es;
      assert Finite(pre, dist) by {
        forall x | x in pre ensures OpenDelta(x.connect, dist) < MAX_DOUBLE {
          assert x in es;
        }
      }
      PickIsEarliestLeast(pre, dist);
      assert Connects(es) == Connects(pre) + [e.connect];
      if |pre| > 0 {
        Order.FirstLeastSnoc(Connects(pre), e.connect, OpenDeltaOf(dist));
      } else {
        assert Connects(es) == [e.connect];
      }
    }
  }

  /** Without a merged candidate, the loop as written makes the intended choice. */
  lemma {:induction false} PickAsWrittenAgrees(es: seq<Entry>, dist: Edge -> real)
    requires forall e :: e in es ==> !e.merged
    ensures PickAsWritten(es, dist) == Pick(es, dist)
  {
    if |es| > 0 {
      assert es[|es| - 1] in es;
      assert forall e :: e in es[..|es| - 1] ==> e in es;
      PickAsWrittenAgrees(es[..|es| - 1], dist);
    }
  }

  /**
   * A merged candidate of open delta 1 followed by a single one of open
   * delta 5: as written the single one replaces the cheaper merged one,
   * because the merged one never lowered the delta to beat.
   */
  lemma PickAsWrittenPrefersLaterCandidate(r: Rings.Ring)
    ensures var dist := (e: Edge) => e.a as real;
      var merged := Connect(r, None, Some(Edge(1, 0)), Some(Edge(1, 0)), Edge(1, 0), None, MAX_DOUBLE);
      var single := Connect(r, None, Some(Edge(3, 0)), Some(Edge(3, 0)), Edge(1, 0), None, 0.0);
      var es := [Entry(merged, true), Entry(single, false)];
      OpenDelta(merged, dist) < OpenDelta(single, dist) &&
      PickAsWritten(es, dist).connect == Some(single) &&
      Pick(es, dist).connect == Some(merged)
  {
    var dist := (e: Edge) => e.a as real;
    var merged := Connect(r, None, Some(Edge(1, 0)), Some(Edge(1, 0)), Edge(1, 0), None, MAX_DOUBLE);
    var single := Connect(r, None, Some(Edge(3, 0)), Some(Edge(3, 0)), Edge(1, 0), None, 0.0);
    var es := [Entry(merged, true), Entry(single, false)];
    assert es[..1] == [Entry(merged, true)];
    assert es[..1][..0] == [];
    assert OpenDelta(merged, dist) == 1.0;
    assert OpenDelta(single, dist) == 5.0;
    assert PickAsWritten(es[..1], dist) == Choice(Some(merged), MAX_DOUBLE);
    assert Pick(es[..1], dist) == Choice(Some(merged), 1.0);
  }

  // ---------------------------------------------------------------------
  // resolveClosedConnect: applying the choice
  // ---------------------------------------------------------------------

  /** What applying a candidate did to the links. */
  datatype Applied =
    | Swapped(state: SalesConnections.Connections)
      // the source (and target) path replaced by the two new paths
    | Raised(state: SalesConnections.Connections, sp1: int, tp1: int, sp2: int, tp2: int)
      // no swap: only the source path removed; the new paths' ends go to the elevation update

  /** The path object of an edge, with its length. */
  function Lift(e: Edge, length: Edge -> real): SalesPath.Path
  {
    SalesPath.Path(e, length(e))
  }

  /** The swap test: between closed rings, the open delta less the target path's distance is not positive. */
  predicate SwapWins(c: Connect, dist: Edge -> real)
  {
    c.source.closed && c.target.Some? && c.targetPath.Some? && OpenDelta(c, dist) - dist(c.targetPath.value) <= 0.0
  }

  /**
   * The structural part of applying the chosen candidate: the source path
   * is removed first; when the swap test holds, the target path is removed
   * if held and both new paths are added.  Otherwise each new path must
   * meet the source path at a point, whose far end it names for the
   * elevation update; none is added.
   */
  function Apply(s: SalesConnections.Connections, c: Connect, dist: Edge -> real, length: Edge -> real)
    : (r: Result<Applied>)
    requires SalesConnections.Valid(s)
    ensures r.Ok? ==> SalesConnections.Valid(r.value.state)
    ensures r.Ok? ==> (r.value.Swapped? <==> SwapWins(c, dist))
    ensures r.Ok? && r.value.Raised? ==> r.value.state == SalesConnections.RemovePath(s, Lift(c.sourcePath, length)).state
    ensures r.Ok? && r.value.Raised? ==>
      c.p1.Some? && c.p2.Some? &&
      ConnectingPoint(c.p1.value, c.sourcePath) == Some(r.value.sp1) && Target(c.p1.value, r.value.sp1) == Some(r.value.tp1) &&
      ConnectingPoint(c.p2.value, c.sourcePath) == Some(r.value.sp2) && Target(c.p2.value, r.value.sp2) == Some(r.value.tp2)
    ensures r.Ok? && r.value.Swapped? ==> c.p1.Some? && c.p2.Some?
    ensures r.Ok? && r.value.Swapped? && c.p2.Some? && c.p2.value.a != c.p2.value.b ==>
      SalesConnections.HasPath(r.value.state, Lift(c.p2.value, length))
    ensures c.source.closed && c.target.Some? && c.targetPath.None? ==> r.Fail?
  {
    var removed := SalesConnections.RemovePath(s, Lift(c.sourcePath, length));
    if removed.thrown.Some? then Fail(removed.thrown.value)
    else
      var s1 := removed.state;
      if c.source.closed && c.target.Some? && c.targetPath.None? then Fail(NullPointer)
      else if SwapWins(c, dist) then
        var tp := Lift(c.targetPath.value, length);
        var s2 := if SalesConnections.HasPath(s1, tp) then SalesConnections.RemovePath(s1, tp)
                  else SalesConnections.Effect(s1, None);
        if s2.thrown.Some? then Fail(s2.thrown.value)
        else if c.p1.None? || c.p2.None? then Fail(NullPointer)
        else
          var a1 := SalesConnections.AddPath(s2.state, Lift(c.p1.value, length), true);
          if a1.thrown.Some? then Fail(a1.thrown.value)
          else
            var a2 := SalesConnections.AddPath(a1.state, Lift(c.p2.value, length), true);
            if a2.thrown.Some? then Fail(a2.thrown.value)
            else Ok(Swapped(a2.state))
      else if c.p1.None? then Fail(NullPointer)
      else
        match ConnectingPoint(c.p1.value, c.sourcePath)
        case None => Fail(Runtime)
        case Some(sp1) =>
          if c.p2.None? then Fail(NullPointer)
          else
            match ConnectingPoint(c.p2.value, c.sourcePath)
            case None => Fail(Runtime)
            case Some(sp2) =>
              match (Target(c.p1.value, sp1), Target(c.p2.value, sp2))
              case (Some(tp1), Some(tp2)) => Ok(Raised(s1, sp1, tp1, sp2, tp2))
              case _ => Fail(NullPointer)
  }

  /** Applying the chosen candidate, if any; no candidate leaves the links as they were. */
  function ApplyChoice(ch: Choice, s: SalesConnections.Connections, dist: Edge -> real, length: Edge -> real)
    : (r: Result<Option<Applied>>)
    requires SalesConnections.Valid(s)
    ensures ch.connect.None? ==> r == Ok(None)
    ensures r.Ok? && r.value.Some? ==> ch.connect.Some? && Apply(s, ch.connect.value, dist, length) == Ok(r.value.value)
    ensures r.Fail? ==> ch.connect.Some? && Apply(s, ch.connect.value, dist, length).Fail?
  {
    if ch.connect.None? then Ok(None)
    else
      match Apply(s, ch.connect.value, dist, length)
      case Fail(e) => Fail(e)
      case Ok(a) => Ok(Some(a))
  }

  /**
   * `resolveClosedConnect` as written: the candidates of every key in the
   * map's iteration order, the choice among them by the loop as written,
   * and the application of the chosen one.
   */
  function ResolveClosedConnect(ring: Rings.Ring, g: Groups, order: seq<PairKey>, s: SalesConnections.Connections,
                                dist: Edge -> real, length: Edge -> real): (r: Result<Option<Applied>>)
    requires SalesConnections.Valid(s)
    requires forall k :: k in order ==> k in g
    ensures r.Ok? ==> Candidates(ring, g, order, dist).Ok?
    ensures r.Ok? && r.value.Some? ==> SalesConnections.Valid(r.value.value.state)
  {
    match Candidates(ring, g, order, dist)
    case Fail(e) => Fail(e)
    case Ok(es) => ApplyChoice(PickAsWritten(es, dist), s, dist, length)
  }

  /** `resolveClosedConnect` with the choice loop as evidently intended. */
  function ResolveIntended(ring: Rings.Ring, g: Groups, order: seq<PairKey>, s: SalesConnections.Connections,
                           dist: Edge -> real, length: Edge -> real): (r: Result<Option<Applied>>)
    requires SalesConnections.Valid(s)
    requires forall k :: k in order ==> k in g
    ensures r.Ok? ==> Candidates(ring, g, order, dist).Ok?
    ensures r.Ok? && r.value.Some? ==> SalesConnections.Valid(r.value.value.state)
  {
    match Candidates(ring, g, order, dist)
    case Fail(e) => Fail(e)
    case Ok(es) => ApplyChoice(Pick(es, dist), s, dist, length)
  }

  /**
   * With finite open deltas, the intended resolve changes nothing exactly
   * when there is no candidate, and otherwise applies the earliest
   * candidate of least open delta.
   */
  lemma ResolveAppliesEarliestLeast(ring: Rings.Ring, g: Groups, order: seq<PairKey>, s: SalesConnections.Connections,
                                    dist: Edge -> real, length: Edge -> real)
    requires SalesConnections.Valid(s)
    requires forall k :: k in order ==> k in g
    requires Candidates(ring, g, order, dist).Ok? && Finite(Candidates(ring, g, order, dist).value, dist)
    ensures var es := Candidates(ring, g, order, dist).value;
      var r := ResolveIntended(ring, g, order, s, dist, length);
      (|es| == 0 ==> r == Ok(None)) &&
      (|es| > 0 ==> r == (var a := Apply(s, es[Order.FirstLeast(Connects(es), OpenDeltaOf(dist))].connect, dist, length);
                          if a.Ok? then Ok(Some(a.value)) else Fail(a.error)))
  {
    PickIsEarliestLeast(Candidates(ring, g, order, dist).value, dist);
  }

  /**
   * When no key has more than one candidate, the resolve as written applies
   * the same candidate as the intended one; only a merged candidate makes
   * them differ.
   */
  lemma ResolveAsWrittenAgrees(ring: Rings.Ring, g: Groups, order: seq<PairKey>, s: SalesConnections.Connections,
                               dist: Edge -> real, length: Edge -> real)
    requires SalesConnections.Valid(s)
    requires forall k :: k in order ==> k in g
    requires forall k :: k in order ==> |g[k]| <= 1
    ensures ResolveClosedConnect(ring, g, order, s, dist, length) == ResolveIntended(ring, g, order, s, dist, length)
  {
    var c := Candidates(ring, g, order, dist);
    if c.Ok? {
      UnmergedCandidates(ring, g, order, dist);
      PickAsWrittenAgrees(c.value, dist);
    }
  }

  /** Keys with at most one candidate contribute no merged candidate. */
  lemma {:induction false} UnmergedCandidates(ring: Rings.Ring, g: Groups, order: seq<PairKey>, dist: Edge -> real)
    requires forall k :: k in order ==> k in g && |g[k]| <= 1
    ensures Candidates(ring, g, order, dist).Ok?
    ensures forall e :: e in Candidates(ring, g, order, dist).value ==> !e.merged
  {
    if |order| > 0 {
      assert forall x :: x in order[..|order| - 1] ==> x in order;
      UnmergedCandidates(ring, g, order[..|order| - 1], dist);
      assert order[|order| - 1] in order;
    }
  }
}
