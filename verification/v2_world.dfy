/**
 * The cache's points seen together, as the v2 passes mutate them: a map from
 * sequence to point.  `Linked` is the invariant the passes keep: every link
 * a point holds runs to another registered point that holds it too.
 */
module V2World {
  import opened Common
  import opened Edges
  import opened V2Path
  import opened V2Point

  type World = map<int, Point>

  /** The endpoint of `e` that is not `s` (when `s` is one of them). */
  function Far(e: Edge, s: int): int
  {
    if e.a == s then e.b else e.a
  }

  /** The slot content `o` of point `s` is held by the point at its far end. */
  ghost predicate SlotLinked(w: World, s: int, o: Option<Path>)
  {
    o.Some? ==> Far(o.value.edge, s) in w && InSlot(w[Far(o.value.edge, s)], o.value)
  }

  /** Every point is well formed and each of its links is recorded at both ends. */
  ghost predicate Linked(w: World)
  {
    forall s :: s in w ==>
      w[s].sequence == s && WellFormed(w[s]) && SlotLinked(w, s, w[s].s0) && SlotLinked(w, s, w[s].s1)
  }

  /**
   * The neighbour tables as the cache builds them: each path filed under `k`
   * joins the point to the registered point `k`, and every `sortIndex` entry
   * names a filed neighbour.
   */
  ghost predicate Neighbours(w: World)
  {
    forall s, k :: s in w && k in w[s].paths ==>
      k in w && k != s && HasPoint(w[s].paths[k].edge, s) && HasPoint(w[s].paths[k].edge, k)
  }

  /** Only slots and counters changed: the same points with the same tables. */
  ghost predicate SameTables(w: World, v: World)
  {
    w.Keys == v.Keys &&
    forall s :: s in w ==> v[s].sequence == w[s].sequence && v[s].paths == w[s].paths &&
                           v[s].sortIndex == w[s].sortIndex
  }

  /** Tables carry over along a chain of link changes, and so do well-formed tables. */
  lemma SameTablesChain(u: World, v: World, x: World)
    ensures SameTables(u, u)
    ensures SameTables(u, v) && SameTables(v, x) ==> SameTables(u, x)
    ensures SameTables(u, v) && Neighbours(u) ==> Neighbours(v)
  {
  }

  /** A path `point` may be offered: null, or a path from `point` to another point. */
  predicate Candidate(point: int, o: Option<Path>)
  {
    o.Some? ==> HasPoint(o.value.edge, point) && o.value.edge.a != o.value.edge.b
  }

  /** Every path a point's table holds is a candidate for that point. */
  lemma LookupIsCandidate(w: World, point: int, k: int)
    requires Neighbours(w) && point in w
    ensures Candidate(point, Lookup(w[point], k))
  {
    if k in w[point].paths {
      assert k in w && k != point && HasPoint(w[point].paths[k].edge, point) && HasPoint(w[point].paths[k].edge, k);
    }
  }

  /** Whether the point `s` is registered and holds both links. */
  predicate Full(w: World, s: int)
  {
    s in w && IsConnected(w[s])
  }

  /** `isCompleted`: every listed point holds both links. */
  predicate IsCompleted(w: World, order: seq<int>)
  {
    forall i :: 0 <= i < |order| ==> Full(w, order[i])
  }

  /**
   * The links a connected world holds: when every point of a linked world is
   * full, each point has exactly two distinct neighbours, both registered.
   */
  lemma CompletedHasTwoNeighbours(w: World, order: seq<int>, i: int)
    requires Linked(w) && IsCompleted(w, order) && 0 <= i < |order|
    ensures var pt := w[order[i]];
      Far(pt.s0.value.edge, order[i]) in w && Far(pt.s1.value.edge, order[i]) in w &&
      Far(pt.s0.value.edge, order[i]) != Far(pt.s1.value.edge, order[i]) &&
      Far(pt.s0.value.edge, order[i]) != order[i]
  {
    var s := order[i];
    var pt := w[s];
    if Far(pt.s0.value.edge, s) == Far(pt.s1.value.edge, s) {
      assert SameEdge(pt.s0.value.edge, pt.s1.value.edge);
    }
  }

  /** Two paths that both join the distinct points `s` and `t` are the same path. */
  lemma SameEnds(p: Path, q: Path, s: int, t: int)
    requires s != t && HasPoint(p.edge, s) && HasPoint(p.edge, t) && HasPoint(q.edge, s) && HasPoint(q.edge, t)
    ensures Same(p, q)
  {
  }

  /** Two paths through `s` with the same far end are equal paths. */
  lemma SameFarSameEdge(p: Path, q: Path, s: int)
    requires HasPoint(p.edge, s) && HasPoint(q.edge, s)
    ensures Far(p.edge, s) == Far(q.edge, s) <==> Same(p, q)
  {
  }

  /** A link held at one end is held at the other. */
  lemma LinkedSymmetric(w: World, s: int, path: Path)
    requires Linked(w) && s in w && InSlot(w[s], path)
    ensures HasPoint(path.edge, s) && Far(path.edge, s) != s
    ensures Far(path.edge, s) in w && InSlot(w[Far(path.edge, s)], path)
  {
    var pt := w[s];
    var o := if pt.s0.Some? && Same(pt.s0.value, path) then pt.s0 else pt.s1;
    assert o.Some? && (o == pt.s0 || o == pt.s1);
    var q := o.value;
    assert Same(q, path);
    var t := Far(q.edge, s);
    assert t in w && InSlot(w[t], q);
    forall e | SameEdge(e, q.edge)
      ensures SameEdge(e, path.edge)
    {
      SameEdgeEquivalence(e, q.edge, path.edge);
    }
  }

  /** Slot contents of `a` survive in `b`: `b` only filled free slots. */
  predicate KeepsSlots(a: Point, b: Point)
  {
    (a.s0.Some? ==> b.s0 == a.s0) && (a.s1.Some? ==> b.s1 == a.s1)
  }

  /** `b` is `a` with one slot, holding a path equal to `q`, emptied. */
  predicate DropsOne(a: Point, b: Point, q: Path)
  {
    (a.s0.Some? && Same(a.s0.value, q) && b == a.(s0 := None, connectCount := a.connectCount - 1)) ||
    (a.s1.Some? && Same(a.s1.value, q) && b == a.(s1 := None, connectCount := a.connectCount - 1))
  }

  /** Emptying the slot of `q` keeps every path not equal to `q`. */
  lemma DropsOneKeepsOthers(a: Point, b: Point, q: Path, r: Path)
    requires DropsOne(a, b, q) && InSlot(a, r) && !Same(q, r)
    ensures InSlot(b, r)
  {
    if a.s0.Some? && Same(a.s0.value, r) && a.s0.Some? && Same(a.s0.value, q) {
      SameEdgeEquivalence(q.edge, a.s0.value.edge, r.edge);
    }
    if a.s1.Some? && Same(a.s1.value, r) && a.s1.Some? && Same(a.s1.value, q) {
      SameEdgeEquivalence(q.edge, a.s1.value.edge, r.edge);
    }
  }

  /**
   * `t.connect(path)` then `point.connect(path)`, the two halves of every
   * link the passes make.  The order does not change the outcome: the two
   * calls touch different points, or the same point twice, where the second
   * call finds the path held.
   */
  function Join(w: World, p: int, path: Path): (r: Result<World>)
    ensures r.Ok? ==> p in w && HasPoint(path.edge, p) && Far(path.edge, p) in w
    ensures r.Ok? ==> SameTables(w, r.value)
    ensures r.Ok? ==> InSlot(r.value[p], path) && InSlot(r.value[Far(path.edge, p)], path)
    ensures r.Ok? ==> KeepsSlots(w[p], r.value[p]) && KeepsSlots(w[Far(path.edge, p)], r.value[Far(path.edge, p)])
    ensures r.Ok? ==> forall s :: s in w && s != p && s != Far(path.edge, p) ==> r.value[s] == w[s]
  {
    if p !in w then Fail(NullPointer)
    else match V2Path.Target(path, p)
      case Fail(e) => Fail(e)
      case Ok(t) =>
        if t !in w then Fail(NullPointer)
        else match Connect(w[t], path)
          case Fail(e) => Fail(e)
          case Ok(wt) =>
            var w1 := w[t := wt];
            match Connect(w1[p], path)
            case Fail(e) => Fail(e)
            case Ok(wp) => Ok(w1[p := wp])
  }

  /**
   * `x.disconnect(y)` then `y.disconnect(x)`: the link between two points is
   * detached at both ends.
   */
  function Detach(w: World, x: int, y: int): (r: Result<World>)
    ensures r.Ok? ==> x in w && y in w && SameTables(w, r.value)
    ensures r.Ok? ==> forall s :: s in w && s != x && s != y ==> r.value[s] == w[s]
  {
    if x !in w || y !in w then Fail(NullPointer)
    else match Disconnect(w[x], y)
      case Fail(e) => Fail(e)
      case Ok(wx) =>
        var w1 := w[x := wx];
        SetKeepsTables(w, x, wx);
        match Disconnect(w1[y], x)
        case Fail(e) => Fail(e)
        case Ok(wy) =>
          SetKeepsTables(w1, y, wy);
          SameTablesChain(w, w1, w1[y := wy]);
          Ok(w1[y := wy])
  }

  /** Replacing one point by one with the same tables keeps the tables and every other point. */
  lemma SetKeepsTables(w: World, s: int, pt: Point)
    requires s in w && pt.sequence == w[s].sequence && pt.paths == w[s].paths && pt.sortIndex == w[s].sortIndex
    ensures SameTables(w, w[s := pt])
    ensures forall t :: t in w && t != s ==> w[s := pt][t] == w[t]
  {
  }

  /** Linking two points of a linked world keeps it linked. */
  lemma JoinKeepsLinked(w: World, p: int, path: Path)
    requires Linked(w) && p in w && HasPoint(path.edge, p) && path.edge.a != path.edge.b
    ensures Join(w, p, path).Ok? ==> Linked(Join(w, p, path).value)
    ensures Join(w, p, path).Ok? && InSlot(w[p], path) ==> Join(w, p, path).value == w
  {
    var r := Join(w, p, path);
    if r.Ok? {
      var t := Far(path.edge, p);
      var v := r.value;
      if InSlot(w[p], path) {
        LinkedSymmetric(w, p, path);
        assert v == w;
      } else {
        if InSlot(w[t], path) {
          LinkedSymmetric(w, t, path);
        }
        assert !InSlot(w[t], path);
        ConnectKeepsWellFormed(w[t], path);
        var wt := Connect(w[t], path).value;
        ConnectKeepsWellFormed(w[t := wt][p], path);
        forall s | s in v
          ensures v[s].sequence == s && WellFormed(v[s]) && SlotLinked(v, s, v[s].s0) && SlotLinked(v, s, v[s].s1)
        {
          assert KeepsSlots(w[s], v[s]);
          GrownSlotLinked(w, v, s, v[s].s0, p, t, path);
          GrownSlotLinked(w, v, s, v[s].s1, p, t, path);
        }
      }
    }
  }

  /** A slot of the grown world is either an old link or the new one. */
  lemma GrownSlotLinked(w: World, v: World, s: int, o: Option<Path>, p: int, t: int, path: Path)
    requires Linked(w) && s in w && w.Keys == v.Keys
    requires forall u :: u in w ==> KeepsSlots(w[u], v[u])
    requires o == v[s].s0 || o == v[s].s1
    requires o.Some? && o != w[s].s0 && o != w[s].s1 ==> (s == p || s == t) && o.value == path
    requires t == Far(path.edge, p) && HasPoint(path.edge, p) && p in v && t in v
    requires InSlot(v[p], path) && InSlot(v[t], path)
    ensures SlotLinked(v, s, o)
  {
    if o.Some? {
      if o == w[s].s0 || o == w[s].s1 {
        var u := Far(o.value.edge, s);
        assert u in w && InSlot(w[u], o.value);
        assert KeepsSlots(w[u], v[u]);
      } else if s == p {
        assert Far(o.value.edge, s) == t;
      } else {
        assert s == t;
        assert Far(o.value.edge, s) == p;
      }
    }
  }

  /** Detaching a link of a linked world empties, at both ends, the slot of one shared path. */
  lemma DetachDropsLink(w: World, x: int, y: int)
    requires Linked(w)
    ensures Detach(w, x, y).Ok? ==>
      x != y &&
      exists q :: DropsOne(w[x], Detach(w, x, y).value[x], q) && DropsOne(w[y], Detach(w, x, y).value[y], q) &&
                  HasPoint(q.edge, x) && HasPoint(q.edge, y)
  {
    var r := Detach(w, x, y);
    if r.Ok? {
      var v := r.value;
      var q := DisconnectDrops(w[x], y);
      assert v[x] == Disconnect(w[x], y).value;
      assert x != y;
      var q' := DisconnectDrops(w[y], x);
      assert v[y] == Disconnect(w[y], x).value;
      SameEnds(q', q, x, y);
      DropsOneSame(w[y], v[y], q', q);
    }
  }

  /**
   * A successful `disconnect` of a well-formed point empties the slot of a
   * path from the point to the target, which is another point.
   */
  lemma DisconnectDrops(a: Point, target: int) returns (q: Path)
    requires WellFormed(a) && Disconnect(a, target).Ok?
    ensures DropsOne(a, Disconnect(a, target).value, q)
    ensures HasPoint(q.edge, a.sequence) && HasPoint(q.edge, target) && target != a.sequence
  {
    q := if LeadsTo(a.s0, a.sequence, target) then a.s0.value else a.s1.value;
    SameEdgeEquivalence(q.edge, q.edge, q.edge);
  }

  /** Emptying the slot of a path empties the slot of every equal path. */
  lemma DropsOneSame(a: Point, b: Point, q: Path, q': Path)
    requires DropsOne(a, b, q) && Same(q, q')
    ensures DropsOne(a, b, q')
  {
    if a.s0.Some? && Same(a.s0.value, q) {
      SameEdgeEquivalence(a.s0.value.edge, q.edge, q'.edge);
    }
    if a.s1.Some? && Same(a.s1.value, q) {
      SameEdgeEquivalence(a.s1.value.edge, q.edge, q'.edge);
    }
  }

  /** Detaching a link of a linked world keeps it linked. */
  lemma DetachKeepsLinked(w: World, x: int, y: int)
    requires Linked(w)
    ensures Detach(w, x, y).Ok? ==> Linked(Detach(w, x, y).value)
  {
    var r := Detach(w, x, y);
    if r.Ok? {
      var v := r.value;
      DetachDropsLink(w, x, y);
      var q :| DropsOne(w[x], v[x], q) && DropsOne(w[y], v[y], q) && HasPoint(q.edge, x) && HasPoint(q.edge, y);
      forall s | s in v
        ensures v[s].sequence == s && WellFormed(v[s]) && SlotLinked(v, s, v[s].s0) && SlotLinked(v, s, v[s].s1)
      {
        DetachKeepsPoint(w, v, x, y, q, s);
        DetachSlotLinked(w, v, x, y, q, s, v[s].s0);
        DetachSlotLinked(w, v, x, y, q, s, v[s].s1);
      }
    }
  }

  /** A slot left after a detach is still held at its far end. */
  lemma DetachSlotLinked(w: World, v: World, x: int, y: int, q: Path, s: int, o: Option<Path>)
    requires Linked(w) && s in v && w.Keys == v.Keys && x in w && y in w && x != y
    requires HasPoint(q.edge, x) && HasPoint(q.edge, y)
    requires DropsOne(w[x], v[x], q) && DropsOne(w[y], v[y], q)
    requires forall u :: u in w && u != x && u != y ==> v[u] == w[u]
    requires o == v[s].s0 || o == v[s].s1
    ensures SlotLinked(v, s, o)
  {
    if o.Some? {
      DetachKeepsPoint(w, v, x, y, q, s);
      assert o == w[s].s0 || o == w[s].s1;
      var u := Far(o.value.edge, s);
      assert u in w && InSlot(w[u], o.value);
      if u == x || u == y {
        DropsOneKeepsOthers(w[u], v[u], q, o.value);
      }
    }
  }

  /** After a detach every point is well formed and holds nothing equal to the detached path. */
  lemma DetachKeepsPoint(w: World, v: World, x: int, y: int, q: Path, s: int)
    requires Linked(w) && s in v && w.Keys == v.Keys && x in w && y in w && x != y
    requires HasPoint(q.edge, x) && HasPoint(q.edge, y)
    requires DropsOne(w[x], v[x], q) && DropsOne(w[y], v[y], q)
    requires forall u :: u in w && u != x && u != y ==> v[u] == w[u]
    ensures v[s].sequence == s && WellFormed(v[s])
    ensures v[s].s0.Some? ==> !Same(v[s].s0.value, q)
    ensures v[s].s1.Some? ==> !Same(v[s].s1.value, q)
  {
    if s == x {
      DropsOneRemaining(w[x], v[x], q);
    } else if s == y {
      DropsOneRemaining(w[y], v[y], q);
    } else {
      assert v[s] == w[s] && w[s].sequence == s && Touching(w[s]);
    }
  }

  /** What is left after emptying the slot of `q` is not equal to `q`. */
  lemma DropsOneRemaining(a: Point, b: Point, q: Path)
    requires WellFormed(a) && DropsOne(a, b, q)
    ensures WellFormed(b)
    ensures b.s0.Some? ==> !Same(b.s0.value, q)
    ensures b.s1.Some? ==> !Same(b.s1.value, q)
  {
    if a.s0.Some? && a.s1.Some? {
      if Same(a.s0.value, q) && Same(a.s1.value, q) {
        SameEdgeEquivalence(a.s0.value.edge, q.edge, a.s1.value.edge);
      }
    }
  }

  /** After `Join`, each slot of a point is an old slot or the joined path. */
  lemma JoinAddsOnly(w: World, point: int, path: Path, s: int)
    requires Join(w, point, path).Ok? && s in w
    ensures var v := Join(w, point, path).value;
      (v[s].s0 == w[s].s0 || v[s].s0 == Some(path)) && (v[s].s1 == w[s].s1 || v[s].s1 == Some(path))
  {
  }

  /**
   * A point that lost the slot of `q` and then gained at most `path` holds no
   * path equal to `q`, unless `path` is one.
   */
  lemma EvictedStaysOut(a: Point, b: Point, c: Point, p: Path, q: Path, path: Path)
    requires WellFormed(a) && DropsOne(a, b, q) && Same(p, q) && !Same(p, path)
    requires (c.s0 == b.s0 || c.s0 == Some(path)) && (c.s1 == b.s1 || c.s1 == Some(path))
    ensures !InSlot(c, p)
  {
    DropsOneRemaining(a, b, q);
    if b.s0.Some? {
      assert !Same(b.s0.value, p) by { SameEdgeEquivalence(b.s0.value.edge, p.edge, q.edge); }
    }
    if b.s1.Some? {
      assert !Same(b.s1.value, p) by { SameEdgeEquivalence(b.s1.value.edge, p.edge, q.edge); }
    }
    if c.s0.Some? && Same(c.s0.value, p) && c.s0 == Some(path) {
      SameEdgeEquivalence(p.edge, c.s0.value.edge, path.edge);
    }
    if c.s1.Some? && Same(c.s1.value, p) && c.s1 == Some(path) {
      SameEdgeEquivalence(p.edge, c.s1.value.edge, path.edge);
    }
  }

  /** Detaching the incumbent's two ends and then joining `path` leaves the incumbent out of `t`. */
  lemma DetachJoinDrops(w: World, point: int, t: int, p2: int, incumbent: Path, path: Path)
    requires Linked(w) && t in w && (Some(incumbent) == w[t].s0 || Some(incumbent) == w[t].s1)
    requires V2Path.Target(incumbent, t) == Ok(p2)
    ensures Detach(w, t, p2).Ok? && Join(Detach(w, t, p2).value, point, path).Ok? && !Same(incumbent, path) ==>
      !InSlot(Join(Detach(w, t, p2).value, point, path).value[t], incumbent)
  {
    if Detach(w, t, p2).Ok? && Join(Detach(w, t, p2).value, point, path).Ok? && !Same(incumbent, path) {
      DetachDropsLink(w, t, p2);
      var w1 := Detach(w, t, p2).value;
      var q :| DropsOne(w[t], w1[t], q) && DropsOne(w[p2], w1[p2], q) && HasPoint(q.edge, t) && HasPoint(q.edge, p2);
      SameEnds(incumbent, q, t, p2);
      JoinAddsOnly(w1, point, path, t);
      EvictedStaysOut(w[t], w1[t], Join(w1, point, path).value[t], incumbent, q, path);
    }
  }

  /**
   * `compare`: every listed point `isEqual` to the saved point at the same
   * position.  Each step reads the saved point before it touches the
   * listed one, so a saved list shorter than the iteration's reads out of
   * range before a missing listed point is dereferenced.
   */
  function Compare(w: World, order: seq<int>, saved: seq<Point>): (r: Result<bool>)
    ensures |saved| >= |order| && (forall i :: 0 <= i < |order| ==> order[i] in w) ==>
      r.Ok? && (r.value <==> forall i :: 0 <= i < |order| ==> IsEqual(w[order[i]], saved[i]))
    ensures r.Ok? && r.value ==>
      |saved| >= |order| && forall i :: 0 <= i < |order| ==> order[i] in w && IsEqual(w[order[i]], saved[i])
    ensures r.Ok? && !r.value ==>
      exists i :: 0 <= i < |order| && i < |saved| && order[i] in w && !IsEqual(w[order[i]], saved[i])
    decreases |order|
  {
    if |order| == 0 then Ok(true)
    else if |saved| == 0 then Fail(IndexOutOfBounds)
    else if order[0] !in w then Fail(NullPointer)
    else if !IsEqual(w[order[0]], saved[0]) then Ok(false)
    else
      match Compare(w, order[1..], saved[1..])
      case Fail(e) => Fail(e)
      case Ok(b) =>
        assert forall i :: 1 <= i < |order| ==> order[1..][i - 1] == order[i];
        assert forall i :: 1 <= i < |order| && i < |saved| ==> saved[1..][i - 1] == saved[i];
        if !b then
          var j :| 0 <= j < |order[1..]| && j < |saved[1..]| && order[1..][j] in w && !IsEqual(w[order[1..][j]], saved[1..][j]);
          assert order[j + 1] in w && !IsEqual(w[order[j + 1]], saved[j + 1]);
          Ok(b)
        else
          Ok(b)
  }

  /**
   * `run` of a v2 iteration: each listed point not linked on both slots is
   * handed to the iteration's `allocate`; the first exception ends the pass.
   */
  function Pass(allocate: (World, int) -> Result<World>, w: World, order: seq<int>): (r: Result<World>)
    ensures (forall i :: 0 <= i < |order| ==> Full(w, order[i])) ==> r == Ok(w)
    ensures |order| > 0 && order[0] !in w ==> r == Fail(NullPointer)
    decreases |order|
  {
    if |order| == 0 then Ok(w)
    else if order[0] !in w then Fail(NullPointer)
    else
      var r1 := if IsConnected(w[order[0]]) then Ok(w) else allocate(w, order[0]);
      match r1
      case Fail(e) => Fail(e)
      case Ok(w1) =>
        assert forall i :: 1 <= i < |order| ==> order[1..][i - 1] == order[i];
        Pass(allocate, w1, order[1..])
  }

  /** `allocate` keeps every linked world with well-formed tables linked, over the same tables. */
  ghost predicate KeepsLinked(allocate: (World, int) -> Result<World>)
  {
    forall w, s :: Linked(w) && Neighbours(w) && s in w && allocate(w, s).Ok? ==>
      Linked(allocate(w, s).value) && SameTables(w, allocate(w, s).value)
  }

  /** A pass whose `allocate` keeps worlds linked leaves a linked world with well-formed tables linked. */
  lemma {:induction false} PassKeepsLinked(allocate: (World, int) -> Result<World>, w: World, order: seq<int>)
    requires KeepsLinked(allocate) && Linked(w) && Neighbours(w)
    ensures Pass(allocate, w, order).Ok? ==> Linked(Pass(allocate, w, order).value)
    decreases |order|
  {
    if |order| > 0 && Pass(allocate, w, order).Ok? {
      var s := order[0];
      var w1 := if IsConnected(w[s]) then w else allocate(w, s).value;
      SameTablesChain(w, w, w);
      SameTablesChain(w, w1, w1);
      PassKeepsLinked(allocate, w1, order[1..]);
    }
  }
}
