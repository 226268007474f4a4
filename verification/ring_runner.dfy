/**
 * The ring detection of `lazyman.core.Runner`: walking the link graph from
 * a point to collect the ring through it, numbering every ring, nesting the
 * closed ones, the reachability test behind "local equilibrium", and the
 * stall counter of the main loop.
 *
 * The lazyman `Connections`, which is not part of this model, appears as a
 * map from a point to its two slots, each holding the path of a link.  The
 * `ring` tag a walk writes on each `Point` is a map from point to ring
 * number.  Ring objects are their numbers, and the walk produces them
 * numbered by position.
 */
module CoreRunner {
  import opened Common
  import opened Edges
  import opened Rings

  /** The two link slots of a point: the paths of its connections. */
  datatype Slots = Slots(s0: Option<Edge>, s1: Option<Edge>)

  type Store = map<int, Slots>

  /** `connection.isComplete()`: both slots are set. */
  predicate Complete(sl: Slots)
  {
    sl.s0.Some? && sl.s1.Some?
  }

  /** The path `e` is held in a slot of point `p`. */
  predicate LinkedAt(store: Store, e: Edge, p: int)
  {
    p in store && (store[p].s0 == Some(e) || store[p].s1 == Some(e))
  }

  /** The path `e` is a link of the store. */
  ghost predicate Linked(store: Store, e: Edge)
  {
    exists p :: LinkedAt(store, e, p)
  }

  /**
   * The step choice of `findRing` at `target`, reached from `prevp`: slot 0
   * when its far end is not where the walk came from, else slot 1 on the
   * same test, else none.  A slot whose path misses `target` fails on the
   * null far end.
   */
  function Next(sl: Slots, target: int, prevp: int): (r: Result<Option<Edge>>)
    ensures r.Fail? ==> r.error == NullPointer
    ensures r.Ok? && r.value.Some? ==>
      (r.value == sl.s0 || r.value == sl.s1) && HasPoint(r.value.value, target) &&
      Target(r.value.value, target) != Some(prevp)
    ensures r.Ok? && r.value.Some? && r.value != sl.s0 ==> sl.s0.None? || Target(sl.s0.value, target) == Some(prevp)
    ensures r.Ok? && r.value.None? ==>
      (sl.s0.None? || Target(sl.s0.value, target) == Some(prevp)) &&
      (sl.s1.None? || Target(sl.s1.value, target) == Some(prevp))
  {
    var first :=
      if sl.s0.None? then Ok(None)
      else match Target(sl.s0.value, target)
        case None => Fail(NullPointer)
        case Some(x) => if x != prevp then Ok(sl.s0) else Ok(None);
    if first.Fail? || first.value.Some? then first
    else if sl.s1.None? then Ok(None)
    else match Target(sl.s1.value, target)
      case None => Fail(NullPointer)
      case Some(x) => if x != prevp then Ok(sl.s1) else Ok(None)
  }

  /** What a walk leaves behind: its ring, the passed points and the ring tags. */
  datatype Walked = Walked(ring: Ring, passed: set<int>, tags: map<int, int>)

  /** `tags` is `before` with every point of `added` tagged `number`. */
  ghost predicate TaggedAs(tags: map<int, int>, before: map<int, int>, added: set<int>, number: int)
  {
    tags.Keys == before.Keys + added &&
    (forall p :: p in tags ==> tags[p] == if p in added then number else before[p])
  }

  /**
   * The loop of `findRing`: from `prevp` along `path`.  The walk stops on a
   * point already passed.  Otherwise it tags and passes the point, and
   * fails if the point has no entry or no link.  At a dead end the ring
   * turns open and, when a second link of the start was kept in `patho`,
   * the walk starts over along it, once.
   */
  function Walk(store: Store, number: int, start: int, r: Ring, prevp: int, path: Edge, patho: Option<Edge>,
                passed: set<int>, tags: map<int, int>): (res: Result<Walked>)
    ensures res.Ok? ==> Keeps(store, number, r, passed, tags, res.value)
    decreases |store.Keys - passed|
  {
    match Target(path, prevp)
    case None => Fail(NullPointer)
    case Some(t) =>
      if t in passed then Ok(Walked(r, passed, tags))
      else if t !in store then Fail(NullPointer)
      else
        var passed1 := passed + {t};
        var tags1 := tags[t := number];
        Shrinks(store.Keys, passed, t);
        var sl := store[t];
        if sl.s0.None? && sl.s1.None? then Fail(Runtime)
        else
          match Next(sl, t, prevp)
          case Fail(e) => Fail(e)
          case Ok(None) =>
            var open := Copy(r, false);
            if patho.Some? then
              var w := Walk(store, number, start, open, start, patho.value, None, passed1, tags1);
              if w.Ok? then
                Stepped(store, number, r, open, t, passed, tags, w.value);
                w
              else w
            else Ok(Walked(open, passed1, tags1))
          case Ok(Some(np)) =>
            assert LinkedAt(store, np, t);
            match Add(r, np)
            case Fail(e) => Fail(e)
            case Ok(r2) =>
              AddStep(store, r, np, t, r2);
              var w := Walk(store, number, start, r2, t, np, patho, passed1, tags1);
              if w.Ok? then
                Stepped(store, number, r, r2, t, passed, tags, w.value);
                w
              else w
  }

  /**
   * What a walk from ring `r` keeps: the passed points only grow, by points
   * of the store, each tagged with the ring's number; the ring keeps its
   * number, level and encloser, may only turn open, and gains only links of
   * the store.
   */
  ghost predicate Keeps(store: Store, number: int, r: Ring, passed: set<int>, tags: map<int, int>, w: Walked)
  {
    passed <= w.passed && w.passed - passed <= store.Keys &&
    TaggedAs(w.tags, tags, w.passed - passed, number) &&
    w.ring.number == r.number && w.ring.level == r.level && w.ring.enclosing == r.enclosing &&
    (w.ring.closed ==> r.closed) && |w.ring.paths| >= |r.paths| &&
    (forall e :: e in w.ring.paths ==> e in r.paths || Linked(store, e))
  }

  /** What a walk keeps holds across one step to point `t`, from ring `r` to ring `r2`. */
  lemma Stepped(store: Store, number: int, r: Ring, r2: Ring, t: int, passed: set<int>, tags: map<int, int>, w: Walked)
    requires t in store && t !in passed
    requires r2.number == r.number && r2.level == r.level && r2.enclosing == r.enclosing
    requires (r2.closed ==> r.closed) && |r2.paths| >= |r.paths|
    requires forall e :: e in r2.paths ==> e in r.paths || Linked(store, e)
    requires Keeps(store, number, r2, passed + {t}, tags[t := number], w)
    ensures Keeps(store, number, r, passed, tags, w)
  {
  }

  /** A ring after `add` holds its old paths and the new one, nothing else. */
  lemma AddedPaths(r: Ring, c: Edge, r2: Ring)
    requires Add(r, c) == Ok(r2)
    ensures forall e :: e in r2.paths ==> e in r.paths || e == c
  {
    var k :| InsertedAt(r, c, k, r2);
    forall e | e in r2.paths ensures e in r.paths || e == c {
      var i :| 0 <= i < |r2.paths| && r2.paths[i] == e;
      if i < k { assert r.paths[i] == e; }
      else if i > k { assert r.paths[i - 1] == e; }
    }
  }

  /** A ring after `add` of a link of point `t` keeps its identity and gains only links of the store. */
  lemma AddStep(store: Store, r: Ring, np: Edge, t: int, r2: Ring)
    requires Add(r, np) == Ok(r2) && LinkedAt(store, np, t)
    ensures r2.number == r.number && r2.level == r.level && r2.enclosing == r.enclosing
    ensures (r2.closed ==> r.closed) && |r2.paths| >= |r.paths|
    ensures forall e :: e in r2.paths ==> e in r.paths || Linked(store, e)
  {
    AddedPaths(r, np, r2);
    var k :| InsertedAt(r, np, k, r2);
  }

  /** Passing one more point of `keys` leaves fewer of them to pass. */
  lemma Shrinks(keys: set<int>, passed: set<int>, t: int)
    requires t in keys && t !in passed
    ensures |keys - (passed + {t})| < |keys - passed|
  {
    assert keys - passed == (keys - (passed + {t})) + {t};
  }

  /** Tagging the start and then the points a walk passed tags them all. */
  lemma TaggedThrough(tags: map<int, int>, start: int, number: int, passed: set<int>, after: set<int>, out: map<int, int>)
    requires passed + {start} <= after
    requires TaggedAs(out, tags[start := number], after - (passed + {start}), number)
    ensures TaggedAs(out, tags, (after - passed) + {start}, number)
  {
  }

  /** The first link of a point, slot 0 before slot 1, and the second when both are set. */
  function Links(sl: Slots): (r: (Option<Edge>, Option<Edge>))
    ensures r.0.None? <==> sl.s0.None? && sl.s1.None?
    ensures r.1.Some? <==> Complete(sl)
    ensures r.0.Some? ==> r.0 == sl.s0 || (sl.s0.None? && r.0 == sl.s1)
    ensures r.1.Some? ==> r.0 == sl.s0 && r.1 == sl.s1
  {
    if sl.s0.None? then (sl.s1, None)
    else (sl.s0, sl.s1)
  }

  /** What `findRing` returns: the ring, or none, with the passed points and tags. */
  datatype Found = Found(ring: Option<Ring>, passed: set<int>, tags: map<int, int>)

  /**
   * `findRing(ring, start, passed)`: tags the start, then walks from its
   * first link, keeping the second for a walk in the other direction.  A
   * start without links gives no ring and is not passed.  A walk that met
   * no dead end is a closed ring; the ring must pass `validate`.
   */
  function FindRing(store: Store, number: int, start: int, passed: set<int>, tags: map<int, int>): (res: Result<Found>)
    ensures start !in store ==> res == Fail(NullPointer)
    ensures res.Ok? && res.value.ring.None? <==>
      start in store && store[start].s0.None? && store[start].s1.None?
    ensures res.Ok? && res.value.ring.None? ==> res.value.passed == passed && res.value.tags == tags[start := number]
    ensures res.Ok? && res.value.ring.Some? ==> var r := res.value.ring.value;
      Valid(r) && r.number == number && r.level == 0 && r.enclosing.None? &&
      (forall e :: e in r.paths ==> Linked(store, e))
    ensures res.Ok? && res.value.ring.Some? ==>
      passed + {start} <= res.value.passed && res.value.passed - passed <= store.Keys &&
      TaggedAs(res.value.tags, tags, (res.value.passed - passed) + {start}, number)
  {
    if start !in store then Fail(NullPointer)
    else
      var tags0 := tags[start := number];
      var (path, patho) := Links(store[start]);
      if path.None? then Ok(Found(None, passed, tags0))
      else
        assert LinkedAt(store, path.value, start);
        var r := Add(New(number), path.value);
        assert r.Ok? && r.value.paths == [path.value];
        match Walk(store, number, start, r.value, start, path.value, patho, passed + {start}, tags0)
        case Fail(e) => Fail(e)
        case Ok(w) =>
          var ring := if w.ring.closed then Copy(w.ring, true) else w.ring;
          match Validate(ring)
          case Fail(e) => Fail(e)
          case Ok(v) =>
            FoundFromWalk(store, number, start, passed, tags, r.value, path.value, w, v);
            Ok(Found(Some(v), w.passed, w.tags))
  }

  /** A walk from a first link of `start` that validates gives what `findRing` promises. */
  lemma FoundFromWalk(store: Store, number: int, start: int, passed: set<int>, tags: map<int, int>,
                      first: Ring, path: Edge, w: Walked, v: Ring)
    requires start in store && LinkedAt(store, path, start) && first.paths == [path]
    requires first.number == number && first.level == 0 && first.enclosing.None?
    requires Keeps(store, number, first, passed + {start}, tags[start := number], w)
    requires Valid(v) && v.paths == w.ring.paths
    requires v.number == w.ring.number && v.level == w.ring.level && v.enclosing == w.ring.enclosing
    ensures v.number == number && v.level == 0 && v.enclosing.None?
    ensures forall e :: e in v.paths ==> Linked(store, e)
    ensures passed + {start} <= w.passed && w.passed - passed <= store.Keys
    ensures TaggedAs(w.tags, tags, (w.passed - passed) + {start}, number)
  {
    TaggedThrough(tags, start, number, passed, w.passed, w.tags);
  }

  /** The rings found so far, with the passed points and tags. */
  datatype Detected = Detected(rings: seq<Ring>, passed: set<int>, tags: map<int, int>)

  /** Rings numbered by position, valid, at level 0 and unenclosed: what the walks produce. */
  ghost predicate Fresh(rings: seq<Ring>)
  {
    forall i :: 0 <= i < |rings| ==>
      rings[i].number == i && Valid(rings[i]) && rings[i].level == 0 && rings[i].enclosing.None?
  }

  /**
   * One of the two loops of `detectRings` over `order` from position `i`:
   * a point already passed, or, in the first loop, a complete one, starts
   * no walk; every ring found is appended and numbered by its position.
   */
  function Pass(store: Store, order: seq<int>, i: nat, skipComplete: bool, d: Detected): (res: Result<Detected>)
    requires i <= |order| && Fresh(d.rings)
    requires skipComplete ==> forall k :: 0 <= k < |order| ==> order[k] in store
    ensures res.Ok? ==> Fresh(res.value.rings) && d.rings <= res.value.rings && d.passed <= res.value.passed
    ensures res.Ok? ==> forall k :: i <= k < |order| && !(skipComplete && Complete(store[order[k]])) ==>
      order[k] in res.value.passed || (order[k] in store && store[order[k]].s0.None? && store[order[k]].s1.None?)
    decreases |order| - i
  {
    if i == |order| then Ok(d)
    else
      var p := order[i];
      if (skipComplete && Complete(store[p])) || p in d.passed then Pass(store, order, i + 1, skipComplete, d)
      else
        match FindRing(store, |d.rings|, p, d.passed, d.tags)
        case Fail(e) => Fail(e)
        case Ok(f) =>
          var rings := if f.ring.Some? then d.rings + [f.ring.value] else d.rings;
          Pass(store, order, i + 1, skipComplete, Detected(rings, f.passed, f.tags))
  }

  /**
   * `detectRings()`: walks first from the incomplete points, in the order
   * `order` of the connection map's values, then from every point of the
   * cache, in `points`; nests the rings when there is more than one.
   */
  function DetectRings(store: Store, order: seq<int>, points: seq<int>, inside: (seq<Option<int>>, int) -> bool)
    : (res: Result<Detected>)
    requires forall k :: 0 <= k < |order| ==> order[k] in store
    ensures res.Ok? ==> forall i :: 0 <= i < |res.value.rings| ==>
      res.value.rings[i].number == i && Valid(res.value.rings[i])
    ensures res.Ok? ==> forall k :: 0 <= k < |points| ==>
      points[k] in res.value.passed || (points[k] in store && store[points[k]].s0.None? && store[points[k]].s1.None?)
    ensures res.Ok? && |res.value.rings| <= 1 ==> Fresh(res.value.rings)
    ensures res.Ok? ==> Nested(res.value.rings)
  {
    match Pass(store, order, 0, true, Detected([], {}, map[]))
    case Fail(e) => Fail(e)
    case Ok(d1) =>
      match Pass(store, points, 0, false, d1)
      case Fail(e) => Fail(e)
      case Ok(d2) =>
        if |d2.rings| > 1 then
          match DetectLevels(d2.rings, 0, inside)
          case Fail(e) => Fail(e)
          case Ok(rs) => Ok(d2.(rings := rs))
        else Ok(d2)
  }

  /** Rings numbered by position. */
  ghost predicate Numbered(rings: seq<Ring>)
  {
    forall i :: 0 <= i < |rings| ==> rings[i].number == i
  }

  /** Every encloser is another ring of the list, and a closed one. */
  ghost predicate Nested(rings: seq<Ring>)
  {
    forall i :: 0 <= i < |rings| && rings[i].enclosing.Some? ==>
      0 <= rings[i].enclosing.value < |rings| && rings[i].enclosing.value != i && rings[rings[i].enclosing.value].closed
  }

  /** The rings differ at most in their levels and enclosers. */
  ghost predicate SameShape(rings: seq<Ring>, out: seq<Ring>)
  {
    |out| == |rings| &&
    forall i :: 0 <= i < |rings| ==>
      out[i].number == rings[i].number && out[i].paths == rings[i].paths && out[i].closed == rings[i].closed
  }

  /**
   * The body of `detectLevels`' inner loop for container `ii` and ring `jj`:
   * when the first point of ring `jj` lies inside the polygon, its level
   * becomes one above the container's, and the container becomes its
   * encloser if it had none or one of a lower level.
   */
  function Enclose(rings: seq<Ring>, ii: nat, jj: nat, polygon: Option<seq<Option<int>>>,
                   inside: (seq<Option<int>>, int) -> bool): (res: Result<seq<Ring>>)
    requires ii < |rings| && jj < |rings| && ii != jj && rings[ii].closed
    requires Numbered(rings) && Nested(rings)
    ensures |rings[jj].paths| == 0 ==> res == Fail(IndexOutOfBounds)
    ensures |rings[jj].paths| > 0 && polygon.None? ==> res == Fail(NullPointer)
    ensures res.Ok? ==> SameShape(rings, res.value) && Numbered(res.value) && Nested(res.value)
    ensures res.Ok? ==> forall k :: 0 <= k < |rings| && k != jj ==> res.value[k] == rings[k]
    ensures res.Ok? ==> var p := rings[jj].paths[0].a; var o := rings[ii]; var i := rings[jj];
      if inside(polygon.value, p) then
        res.value[jj].level == o.level + 1 &&
        res.value[jj].enclosing ==
          (if i.enclosing.None? || rings[i.enclosing.value].level < o.level + 1 then Some(ii) else i.enclosing)
      else res.value[jj] == i
  {
    var i := rings[jj];
    if |i.paths| == 0 then Fail(IndexOutOfBounds)
    else if polygon.None? then Fail(NullPointer)
    else if inside(polygon.value, i.paths[0].a) then
      var o := rings[ii];
      var l := o.level + 1;
      var e := i.enclosing;
      var i1 := if e.None? || rings[e.value].level < l then i.(enclosing := Some(o.number)) else i;
      Ok(rings[jj := i1.(level := l)])
    else Ok(rings)
  }

  /** The inner loop of `detectLevels` for a closed container `ii`, from ring `jj` on. */
  function EncloseAll(rings: seq<Ring>, ii: nat, jj: nat, polygon: Option<seq<Option<int>>>,
                      inside: (seq<Option<int>>, int) -> bool): (res: Result<seq<Ring>>)
    requires ii < |rings| && jj <= |rings| && rings[ii].closed
    requires Numbered(rings) && Nested(rings)
    ensures res.Ok? ==> SameShape(rings, res.value) && Numbered(res.value) && Nested(res.value)
    ensures res.Ok? ==> res.value[ii] == rings[ii]
    ensures res.Ok? ==> forall k :: 0 <= k < jj ==> res.value[k] == rings[k]
    ensures res.Ok? ==> forall k :: jj <= k < |rings| && k != ii ==> |rings[k].paths| > 0 && polygon.Some?
    ensures res.Ok? ==> forall k :: jj <= k < |rings| && k != ii && polygon.Some? && !inside(polygon.value, rings[k].paths[0].a) ==>
      res.value[k] == rings[k]
    decreases |rings| - jj
  {
    if jj == |rings| then Ok(rings)
    else if jj == ii then EncloseAll(rings, ii, jj + 1, polygon, inside)
    else
      match Enclose(rings, ii, jj, polygon, inside)
      case Fail(e) => Fail(e)
      case Ok(rs) =>
        var res := EncloseAll(rs, ii, jj + 1, polygon, inside);
        EncloseAllStep(rings, ii, jj, polygon, inside, rs, res);
        res
  }

  /** One turn of the inner loop keeps the rings its container's polygon does not hold. */
  lemma EncloseAllStep(rings: seq<Ring>, ii: nat, jj: nat, polygon: Option<seq<Option<int>>>,
                       inside: (seq<Option<int>>, int) -> bool, rs: seq<Ring>, res: Result<seq<Ring>>)
    requires ii < |rings| && jj < |rings| && jj != ii && rings[ii].closed
    requires Numbered(rings) && Nested(rings)
    requires Enclose(rings, ii, jj, polygon, inside) == Ok(rs)
    requires res.Ok? ==> |res.value| == |rs| && forall k :: 0 <= k < jj + 1 ==> res.value[k] == rs[k]
    requires res.Ok? ==> forall k :: jj + 1 <= k < |rs| && k != ii ==> |rs[k].paths| > 0 && polygon.Some?
    requires res.Ok? ==> forall k :: jj + 1 <= k < |rs| && k != ii && polygon.Some? && !inside(polygon.value, rs[k].paths[0].a) ==>
      res.value[k] == rs[k]
    ensures res.Ok? ==> forall k :: jj <= k < |rings| && k != ii ==> |rings[k].paths| > 0 && polygon.Some?
    ensures res.Ok? ==> forall k :: jj <= k < |rings| && k != ii && polygon.Some? && !inside(polygon.value, rings[k].paths[0].a) ==>
      res.value[k] == rings[k]
  {
    if res.Ok? {
      forall k | jj <= k < |rings| && k != ii
        ensures |rings[k].paths| > 0 && polygon.Some?
      {
        if k > jj {
          assert rs[k] == rings[k];
        }
      }
      assert res.value[jj] == rs[jj];
    }
  }

  /**
   * `detectLevels(rings)` from container `ii` on: every closed ring's
   * polygon is tested against the first point of each other ring.  The
   * point-in-polygon test is a parameter.
   */
  function DetectLevels(rings: seq<Ring>, ii: nat, inside: (seq<Option<int>>, int) -> bool): (res: Result<seq<Ring>>)
    requires ii <= |rings| && Numbered(rings) && Nested(rings)
    ensures res.Ok? ==> SameShape(rings, res.value) && Numbered(res.value) && Nested(res.value)
    decreases |rings| - ii
  {
    if ii == |rings| then Ok(rings)
    else if !rings[ii].closed then DetectLevels(rings, ii + 1, inside)
    else
      match PolygonAsWritten(rings[ii])
      case Fail(e) => Fail(e)
      case Ok(poly) =>
        match EncloseAll(rings, ii, 0, poly, inside)
        case Fail(e) => Fail(e)
        case Ok(rs) => DetectLevels(rs, ii + 1, inside)
  }

  /** The polygon of a closed ring, as `getPolygon` writes it, does not hold the point `p`. */
  ghost predicate Excludes(r: Ring, p: int, inside: (seq<Option<int>>, int) -> bool)
  {
    var poly := PolygonAsWritten(r);
    poly.Ok? && poly.value.Some? ==> !inside(poly.value.value, p)
  }

  /** No closed ring from `ii` on, other than ring `jj`, holds ring `jj`'s first point. */
  ghost predicate Outside(rings: seq<Ring>, ii: nat, jj: nat, inside: (seq<Option<int>>, int) -> bool)
    requires jj < |rings|
  {
    forall k :: ii <= k < |rings| && k != jj && rings[k].closed && |rings[jj].paths| > 0 ==>
      Excludes(rings[k], rings[jj].paths[0].a, inside)
  }

  /**
   * `detectLevels` changes a ring's level or encloser only when the polygon
   * of some closed ring holds the ring's first point: a ring outside every
   * polygon comes back as it went in.
   */
  lemma {:induction false} DetectLevelsKeepsOutside(rings: seq<Ring>, ii: nat, jj: nat,
                                                    inside: (seq<Option<int>>, int) -> bool)
    requires ii <= |rings| && Numbered(rings) && Nested(rings) && jj < |rings|
    requires Outside(rings, ii, jj, inside)
    ensures DetectLevels(rings, ii, inside).Ok? ==> DetectLevels(rings, ii, inside).value[jj] == rings[jj]
    decreases |rings| - ii
  {
    if ii < |rings| {
      if !rings[ii].closed {
        DetectLevelsKeepsOutside(rings, ii + 1, jj, inside);
      } else {
        var poly := PolygonAsWritten(rings[ii]);
        if poly.Ok? {
          var e := EncloseAll(rings, ii, 0, poly.value, inside);
          if e.Ok? {
            var rs := e.value;
            EncloseKeepsOutside(rings, ii, jj, poly.value, inside, rs);
            DetectLevelsKeepsOutside(rs, ii + 1, jj, inside);
          }
        }
      }
    }
  }

  /** One closed ring's inner loop leaves a ring outside every polygon as it was, and still outside. */
  lemma EncloseKeepsOutside(rings: seq<Ring>, ii: nat, jj: nat, poly: Option<seq<Option<int>>>,
                            inside: (seq<Option<int>>, int) -> bool, rs: seq<Ring>)
    requires ii < |rings| && jj < |rings| && rings[ii].closed && Numbered(rings) && Nested(rings)
    requires PolygonAsWritten(rings[ii]) == Ok(poly)
    requires EncloseAll(rings, ii, 0, poly, inside) == Ok(rs)
    requires Outside(rings, ii, jj, inside)
    ensures rs[jj] == rings[jj] && Outside(rs, ii + 1, jj, inside)
  {
    if jj != ii {
      assert Excludes(rings[ii], rings[jj].paths[0].a, inside);
    }
    forall k | ii + 1 <= k < |rs| && k != jj && rs[k].closed && |rs[jj].paths| > 0
      ensures Excludes(rs[k], rs[jj].paths[0].a, inside)
    {
      SameShapePolygon(rings[k], rs[k]);
    }
  }

  /** The polygon depends only on whether the ring is closed and on its paths. */
  lemma SameShapePolygon(r: Ring, q: Ring)
    requires r.closed == q.closed && r.paths == q.paths
    ensures PolygonAsWritten(r) == PolygonAsWritten(q)
  {
  }

  /**
   * The loop of `hasLocalEquilibrium`: from `prevp` along `path`, collecting
   * the points reached until one repeats.  At each point it follows slot 0
   * when that leads away, else slot 1, else the same path again.
   */
  function Reach(store: Store, prevp: int, path: Edge, check: set<int>): (res: Result<set<int>>)
    requires check <= store.Keys
    ensures res.Ok? ==> check <= res.value <= store.Keys
    decreases |store.Keys - check|
  {
    match Target(path, prevp)
    case None => Fail(NullPointer)
    case Some(t) =>
      if t in check then Ok(check)
      else if t !in store then Fail(NullPointer)
      else
        assert store.Keys - (check + {t}) < store.Keys - check by {
          assert t in store.Keys - check;
        }
        var sl := store[t];
        if sl.s0.None? && sl.s1.None? then Fail(Runtime)
        else
          var away :=
            if sl.s0.None? then Ok(false)
            else match Target(sl.s0.value, t)
              case None => Fail(NullPointer)
              case Some(x) => Ok(x != prevp);
          match away
          case Fail(e) => Fail(e)
          case Ok(a) =>
            var next := if a then sl.s0.value else if sl.s1.Some? then sl.s1.value else path;
            Reach(store, t, next, check + {t})
  }

  /**
   * `hasLocalEquilibrium()`: the walk from the cache's first point along
   * its slot-0 link reaches fewer points than the `size` the cache holds.
   * A first point without an entry or without a slot-0 link fails.
   */
  function HasLocalEquilibrium(store: Store, first: int, size: int): (res: Result<(bool, set<int>)>)
    ensures first !in store || store[first].s0.None? ==> res == Fail(NullPointer)
    ensures res.Ok? ==> first in res.value.1 && res.value.1 <= store.Keys
    ensures res.Ok? ==> (res.value.0 <==> |res.value.1| != size)
  {
    if first !in store || store[first].s0.None? then Fail(NullPointer)
    else
      match Reach(store, first, store[first].s0.value, {first})
      case Fail(e) => Fail(e)
      case Ok(check) => Ok((|check| != size, check))
  }

  /** The points of a sequence. */
  function Elems(s: seq<int>): set<int>
  {
    set p | p in s
  }

  /** The point after position `i` on the cycle `v`. */
  function Succ(v: seq<int>, i: nat): int
    requires i < |v|
  {
    if i + 1 < |v| then v[i + 1] else v[0]
  }

  /** The point before position `i` on the cycle `v`. */
  function Pred(v: seq<int>, i: nat): int
    requires i < |v|
  {
    if i > 0 then v[i - 1] else v[|v| - 1]
  }

  /** The cycle through the distinct points `v` in order: each point linked to its successor in slot 0 and to its predecessor in slot 1. */
  ghost predicate CycleStore(store: Store, v: seq<int>)
  {
    |v| >= 3 && (forall i, j :: 0 <= i < j < |v| ==> v[i] != v[j]) && store.Keys == Elems(v) &&
    (forall i :: 0 <= i < |v| ==> store[v[i]] == Slots(Some(Edge(v[i], Succ(v, i))), Some(Edge(Pred(v, i), v[i]))))
  }

  /** The points of a prefix of distinct points: all of `v`'s, without the next one, and growing by it. */
  lemma PrefixElems(v: seq<int>, k: nat)
    requires k < |v| && forall i, j :: 0 <= i < j < |v| ==> v[i] != v[j]
    ensures Elems(v[..k + 1]) <= Elems(v)
    ensures k + 1 < |v| ==> v[k + 1] !in Elems(v[..k + 1])
    ensures k + 1 < |v| ==> Elems(v[..k + 2]) == Elems(v[..k + 1]) + {v[k + 1]}
    ensures k + 1 == |v| ==> Elems(v[..k + 1]) == Elems(v)
  {
    assert forall i :: 0 <= i <= k ==> v[..k + 1][i] == v[i];
    if k + 1 < |v| {
      assert v[..k + 2] == v[..k + 1] + [v[k + 1]];
    } else {
      assert v[..k + 1] == v;
    }
  }

  /** Along a cycle, the walk from `v[k]` has reached `v[..k + 1]` and goes on to the end. */
  lemma {:induction false} ReachAlongCycle(store: Store, v: seq<int>, k: nat)
    requires CycleStore(store, v) && k < |v|
    ensures Elems(v[..k + 1]) <= store.Keys
    ensures Reach(store, v[k], Edge(v[k], Succ(v, k)), Elems(v[..k + 1])) == Ok(Elems(v))
    decreases |v| - k
  {
    var n := |v|;
    var check := Elems(v[..k + 1]);
    var path := Edge(v[k], Succ(v, k));
    PrefixElems(v, k);
    if k == n - 1 {
      assert v[0] in Elems(v[..k + 1]) by { assert v[..k + 1][0] == v[0]; }
      assert Target(path, v[k]) == Some(v[0]);
    } else {
      var t := v[k + 1];
      assert Target(path, v[k]) == Some(t);
      assert t in store;
      var sl := store[t];
      assert Pred(v, k + 1) == v[k];
      var far := Succ(v, k + 1);
      assert sl.s0 == Some(Edge(t, far));
      assert far != v[k];
      assert Target(sl.s0.value, t) == Some(far);
      ReachAlongCycle(store, v, k + 1);
    }
  }

  /**
   * On a graph that is one cycle through all `size` points, the walk of
   * `hasLocalEquilibrium` reaches every point and reports no equilibrium.
   */
  lemma CycleHasNoLocalEquilibrium(store: Store, v: seq<int>)
    requires CycleStore(store, v)
    ensures HasLocalEquilibrium(store, v[0], |v|) == Ok((false, Elems(v)))
  {
    ReachAlongCycle(store, v, 0);
    assert v[..1] == [v[0]];
    assert Elems([v[0]]) == {v[0]};
    assert v[0] in store && store[v[0]].s0 == Some(Edge(v[0], Succ(v, 0)));
    DistinctCardinality(v);
  }

  /** A sequence of distinct elements has as many elements as its set. */
  lemma {:induction false} DistinctCardinality(v: seq<int>)
    requires forall i, j :: 0 <= i < j < |v| ==> v[i] != v[j]
    ensures |Elems(v)| == |v|
  {
    if |v| > 0 {
      var w := v[..|v| - 1];
      DistinctCardinality(w);
      assert v == w + [v[|v| - 1]];
      assert Elems(v) == Elems(w) + {v[|v| - 1]};
      assert v[|v| - 1] !in Elems(w);
    }
  }

  /** One turn of the main loop as the stall counter sees it: was closure reached, and is the graph as the last snapshot left it. */
  datatype Turn = Turn(closure: bool, identical: bool)

  /** The identical snapshots in a row just before turn `k`; turn 0 has no snapshot to compare with. */
  function Streak(trace: seq<Turn>, k: nat): nat
    requires k <= |trace|
  {
    if k <= 1 then 0 else if trace[k - 1].identical then 1 + Streak(trace, k - 1) else 0
  }

  /** The main loop leaves at turn `k`: on closure, or on an identical snapshot after four in a row. */
  predicate Stops(trace: seq<Turn>, k: nat)
    requires k < |trace|
  {
    trace[k].closure || (k >= 1 && trace[k].identical && Streak(trace, k) > 3)
  }

  /**
   * The stall counter of `run()`: the turn at which the loop leaves, or
   * none when the turns given run out first.
   */
  method StallTurn(trace: seq<Turn>) returns (stop: Option<nat>)
    ensures stop.Some? ==> stop.value < |trace| && Stops(trace, stop.value)
    ensures stop.Some? ==> forall j :: 0 <= j < stop.value ==> !Stops(trace, j)
    ensures stop.None? ==> forall j :: 0 <= j < |trace| ==> !Stops(trace, j)
  {
    var iteration := 0;
    var snapshot := false;
    var iCount := 0;
    while iteration < |trace|
      invariant iteration <= |trace|
      invariant snapshot <==> iteration > 0
      invariant iCount == Streak(trace, iteration)
      invariant forall j :: 0 <= j < iteration ==> !Stops(trace, j)
    {
      var turn := trace[iteration];
      if turn.closure {
        return Some(iteration);
      }
      if snapshot {
        if turn.identical {
          if iCount > 3 {
            return Some(iteration);
          }
          iCount := iCount + 1;
        } else {
          iCount := 0;
        }
      }
      snapshot := true;
      iteration := iteration + 1;
    }
    return None;
  }

  /** A streak of `n` means the `n` turns before `k` (none of them turn 0) all found the graph unchanged. */
  lemma {:induction false} StreakMeans(trace: seq<Turn>, k: nat, n: nat)
    requires k <= |trace|
    ensures Streak(trace, k) >= n <==> n == 0 || (n < k && forall j :: k - n <= j < k ==> trace[j].identical)
    decreases k
  {
    if n > 0 && k > 1 {
      StreakMeans(trace, k - 1, n - 1);
      if Streak(trace, k) >= n {
        assert trace[k - 1].identical;
      }
    }
  }

  /** The loop leaves without closure exactly after five identical snapshots in a row. */
  lemma StopsWithoutClosure(trace: seq<Turn>, k: nat)
    requires k < |trace| && !trace[k].closure
    ensures Stops(trace, k) <==> 5 <= k && forall j :: k - 4 <= j <= k ==> trace[j].identical
  {
    StreakMeans(trace, k, 4);
  }
}
