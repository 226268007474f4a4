/**
 * `salesman.core.model.Connections`: the registry of link slots, one
 * `Connection` (two slots) per point.
 *
 * The registry maps a point to a Connection OBJECT, and `copy()` builds a new
 * map onto the same objects.  The model keeps that sharing visible: a registry
 * is a map from point to object reference plus the heap of Connection objects
 * the references point into, and a copy is a second reference map into the
 * same heap.
 */
module SalesConnections {
  import opened Common
  import opened Edges
  import opened SalesPath

  /** `ConnectionPath`: a path held in a slot, with its biddable flag. */
  datatype Held = Held(path: Path, biddable: bool)

  /** `Connection`: the two link slots of one point. */
  datatype Connection = Connection(point: int, s0: Option<Held>, s1: Option<Held>)

  /** A java call's effect on a mutable object and the exception, if any, it ended with. */
  datatype Effect<S> = Effect(state: S, thrown: Option<Error>)

  /** Slot `i` (0 or 1) of a connection. */
  function Slot(c: Connection, i: int): Option<Held>
    requires i == 0 || i == 1
  {
    if i == 0 then c.s0 else c.s1
  }

  /** The slot holds a path equal (endpoint order aside) to `path`. */
  predicate Holds(o: Option<Held>, path: Path)
  {
    o.Some? && SameEdge(o.value.path.edge, path.edge)
  }

  /** Number of the connection's slots holding `path`. */
  function Count(c: Connection, path: Path): (n: nat)
    ensures n <= 2
  {
    (if Holds(c.s0, path) then 1 else 0) + (if Holds(c.s1, path) then 1 else 0)
  }

  /** Number of empty slots. */
  function Free(c: Connection): (n: nat)
    ensures n <= 2
  {
    (if c.s0.None? then 1 else 0) + (if c.s1.None? then 1 else 0)
  }

  /** `isValidPath`: the path touches the connection's point. */
  predicate IsValidPath(c: Connection, path: Path)
  {
    HasPoint(path.edge, c.point)
  }

  /** `isComplete`: both slots are occupied. */
  predicate IsComplete(c: Connection)
  {
    c.s0.Some? && c.s1.Some?
  }

  /** `isComplete` holds exactly when no slot is free. */
  lemma CompleteIffNoFree(c: Connection)
    ensures IsComplete(c) <==> Free(c) == 0
  {
  }

  /**
   * `Connection.add(path, biddable)`: the first empty slot takes the path;
   * a path off the point and a full connection raise exceptions.
   */
  function Add(c: Connection, path: Path, biddable: bool): (r: Result<(Connection, int)>)
    ensures r.Ok? <==> IsValidPath(c, path) && !IsComplete(c)
    ensures r.Fail? ==> r.error == (if !IsValidPath(c, path) then IllegalArgument else IndexOutOfBounds)
    ensures r.Ok? ==>
      var (d, idx) := r.value;
      d.point == c.point
      && (idx == 0 <==> c.s0.None?) && (idx == 1 <==> c.s0.Some?)
      && Slot(d, idx) == Some(Held(path, biddable))
      && Slot(d, 1 - idx) == Slot(c, 1 - idx)
      && Count(d, path) == Count(c, path) + 1
      && Free(d) + 1 == Free(c)
  {
    if !IsValidPath(c, path) then Fail(IllegalArgument)
    else if c.s0.None? then Ok((c.(s0 := Some(Held(path, biddable))), 0))
    else if c.s1.None? then Ok((c.(s1 := Some(Held(path, biddable))), 1))
    else Fail(IndexOutOfBounds)
  }

  /**
   * `Connection.add(path, index, biddable)`: installs the path in the named
   * slot, which must be empty.
   */
  function AddAt(c: Connection, path: Path, index: int, biddable: bool): (r: Result<Connection>)
    ensures r.Ok? <==> IsValidPath(c, path) && (index == 0 || index == 1) && Slot(c, index).None?
    ensures r.Ok? ==>
      r.value.point == c.point && Slot(r.value, index) == Some(Held(path, biddable))
      && Slot(r.value, 1 - index) == Slot(c, 1 - index)
  {
    if !IsValidPath(c, path) then Fail(IllegalArgument)
    else if index != 0 && index != 1 then Fail(IndexOutOfBounds)
    else if Slot(c, index).Some? then Fail(IllegalArgument)
    else if index == 0 then Ok(c.(s0 := Some(Held(path, biddable))))
    else Ok(c.(s1 := Some(Held(path, biddable))))
  }

  /**
   * `Connection.remove(path)`: clears the first slot holding an equal path
   * and returns its index; a path off the point or absent raises an exception.
   */
  function Remove(c: Connection, path: Path): (r: Result<(Connection, int)>)
    ensures r.Ok? <==> IsValidPath(c, path) && Count(c, path) > 0
    ensures r.Fail? ==> r.error == IllegalArgument
    ensures r.Ok? ==>
      var (d, idx) := r.value;
      d.point == c.point
      && (idx == 0 || idx == 1) && (idx == 0 <==> Holds(c.s0, path))
      && Slot(d, idx).None? && Slot(d, 1 - idx) == Slot(c, 1 - idx)
      && Count(d, path) + 1 == Count(c, path)
      && Free(d) == Free(c) + 1
  {
    if !IsValidPath(c, path) then Fail(IllegalArgument)
    else if Holds(c.s0, path) then Ok((c.(s0 := None), 0))
    else if Holds(c.s1, path) then Ok((c.(s1 := None), 1))
    else Fail(IllegalArgument)
  }

  /**
   * Removing a just-added path gives the connection back, when it held no
   * equal path before.
   */
  lemma AddThenRemove(c: Connection, path: Path, biddable: bool)
    requires Add(c, path, biddable).Ok?
    requires Count(c, path) == 0
    ensures Remove(Add(c, path, biddable).value.0, path) == Ok((c, Add(c, path, biddable).value.1))
  {
  }

  /** `d` is `c` with one empty slot now holding `path`, the other slot untouched. */
  ghost predicate Gains(c: Connection, d: Connection, path: Path)
  {
    d.point == c.point
    && (forall i :: (i == 0 || i == 1) ==>
          Slot(d, i) == Slot(c, i) || (Slot(c, i).None? && Slot(d, i).Some? && Slot(d, i).value.path == path))
    && Count(d, path) == Count(c, path) + 1
  }

  /** `d` is `c` with one slot holding `path` now empty, the other slot untouched. */
  ghost predicate Loses(c: Connection, d: Connection, path: Path)
  {
    d.point == c.point
    && (forall i :: (i == 0 || i == 1) ==>
          Slot(d, i) == Slot(c, i) || (Holds(Slot(c, i), path) && Slot(d, i).None?))
    && Count(d, path) + 1 == Count(c, path)
  }

  /** Adding or clearing `path` leaves the count of every different path alone. */
  lemma CountOfOtherPath(c: Connection, d: Connection, path: Path, e: Path)
    requires Gains(c, d, path) || Loses(c, d, path)
    requires !SameEdge(e.edge, path.edge)
    ensures Count(d, e) == Count(c, e)
  {
    assert Slot(d, 0) == Slot(c, 0) || (!Holds(Slot(d, 0), e) && !Holds(Slot(c, 0), e));
    assert Slot(d, 1) == Slot(c, 1) || (!Holds(Slot(d, 1), e) && !Holds(Slot(c, 1), e));
  }

  /** Equal paths are counted alike. */
  lemma CountOfEqualPath(c: Connection, e: Path, path: Path)
    requires SameEdge(e.edge, path.edge)
    ensures Count(c, e) == Count(c, path)
  {
  }

  /** The same fact as `CountOfEqualPath`, guarded, for callers where the paths may differ. */
  lemma EqualPathCounts(c: Connection, e: Path, path: Path)
    ensures SameEdge(e.edge, path.edge) ==> Count(c, e) == Count(c, path)
  {
    if SameEdge(e.edge, path.edge) {
      CountOfEqualPath(c, e, path);
    }
  }

  /**
   * `hasSequence`: for a sequence other than the point's own, the path in the
   * first slot that touches it; otherwise null.
   */
  function HasSequence(c: Connection, sequence: int): (r: Option<Path>)
    ensures r.Some? <==>
      sequence != c.point
      && ((c.s0.Some? && HasPoint(c.s0.value.path.edge, sequence))
          || (c.s1.Some? && HasPoint(c.s1.value.path.edge, sequence)))
    ensures r.Some? ==> HasPoint(r.value.edge, sequence)
    ensures r.Some? && c.s0.Some? && HasPoint(c.s0.value.path.edge, sequence) ==> r.value == c.s0.value.path
  {
    if sequence == c.point then None
    else if c.s0.Some? && HasPoint(c.s0.value.path.edge, sequence) then Some(c.s0.value.path)
    else if c.s1.Some? && HasPoint(c.s1.value.path.edge, sequence) then Some(c.s1.value.path)
    else None
  }

  /** The registry: point to Connection object, and the objects themselves. */
  datatype Connections = Connections(refs: map<int, nat>, heap: seq<Connection>)

  /** Every registered point refers to an object that belongs to it. */
  ghost predicate Valid(s: Connections)
  {
    forall k :: k in s.refs ==> s.refs[k] < |s.heap| && s.heap[s.refs[k]].point == k
  }

  /** A new, empty registry. */
  function Empty(): (s: Connections)
    ensures Valid(s) && s.refs == map[]
  {
    Connections(map[], [])
  }

  /** The Connection object registered for point `k`. */
  function Conn(s: Connections, k: int): Connection
    requires Valid(s) && k in s.refs
  {
    s.heap[s.refs[k]]
  }

  /** The Connection `get(point, true)` would find: the registered one, else a new empty one. */
  function Before(s: Connections, k: int): (c: Connection)
    requires Valid(s)
    ensures c.point == k
  {
    if k in s.refs then Conn(s, k) else Connection(k, None, None)
  }

  /** Free slots of a point; an unregistered point would get an empty Connection. */
  function FreeAt(s: Connections, k: int): nat
    requires Valid(s)
  {
    if k in s.refs then Free(Conn(s, k)) else 2
  }

  /** Number of a point's slots holding `path`; none for an unregistered point. */
  function CountAt(s: Connections, k: int, path: Path): nat
    requires Valid(s)
  {
    if k in s.refs then Count(Conn(s, k), path) else 0
  }

  /**
   * `t` is `s` after in-place updates: every point of `s` is still registered
   * and still refers to the same object.
   */
  ghost predicate Extends(s: Connections, t: Connections)
  {
    forall k :: k in s.refs ==> k in t.refs && t.refs[k] == s.refs[k]
  }

  /** `get(point, true)`: registers an empty Connection for a new point. */
  function Ensure(s: Connections, k: int): (t: Connections)
    requires Valid(s)
    ensures Valid(t) && Extends(s, t)
    ensures t.refs.Keys == s.refs.Keys + {k}
    ensures k in s.refs ==> t == s
    ensures k !in s.refs ==> Conn(t, k) == Connection(k, None, None)
    ensures forall j :: j in s.refs ==> Conn(t, j) == Conn(s, j)
  {
    if k in s.refs then s
    else Connections(s.refs[k := |s.heap|], s.heap + [Connection(k, None, None)])
  }

  /** Replaces the object of a registered point in place. */
  function Put(s: Connections, k: int, c: Connection): (t: Connections)
    requires Valid(s) && k in s.refs && c.point == k
    ensures Valid(t) && Extends(s, t) && t.refs == s.refs
    ensures Conn(t, k) == c
    ensures forall j :: j in s.refs && j != k ==> Conn(t, j) == Conn(s, j)
  {
    Connections(s.refs, s.heap[s.refs[k] := c])
  }

  /**
   * The private `add(point, path, biddable)`: registers the point if needed,
   * then adds the path to its Connection.  The registration survives a
   * failing add.
   */
  function AddAtPoint(s: Connections, p: int, path: Path, biddable: bool): (r: Effect<Connections>)
    requires Valid(s)
    ensures Valid(r.state) && Extends(s, r.state)
    ensures r.state.refs.Keys == s.refs.Keys + {p}
    ensures r.thrown.None? <==> HasPoint(path.edge, p) && FreeAt(s, p) > 0
    ensures r.thrown.None? ==>
      CountAt(r.state, p, path) == CountAt(s, p, path) + 1 && FreeAt(r.state, p) + 1 == FreeAt(s, p)
    ensures r.thrown.Some? ==> CountAt(r.state, p, path) == CountAt(s, p, path) && FreeAt(r.state, p) == FreeAt(s, p)
    ensures r.thrown.None? ==> Gains(Before(s, p), Conn(r.state, p), path)
    ensures forall j :: j in s.refs && j != p ==> Conn(r.state, j) == Conn(s, j)
  {
    var s1 := Ensure(s, p);
    match Add(Conn(s1, p), path, biddable)
    case Ok((c, _)) => Effect(Put(s1, p, c), None)
    case Fail(e) => Effect(s1, Some(e))
  }

  /**
   * `add(path, biddable)`: records the path at endpoint A, then at endpoint
   * B, registering each as needed.  An exception at B leaves A's update in
   * place.
   */
  function AddPath(s: Connections, path: Path, biddable: bool): (r: Effect<Connections>)
    requires Valid(s)
    ensures Valid(r.state) && Extends(s, r.state)
    ensures r.thrown.None? <==>
      FreeAt(s, path.edge.a) > 0
      && FreeAt(s, path.edge.b) > (if path.edge.a == path.edge.b then 1 else 0)
    ensures r.thrown.None? && path.edge.a != path.edge.b ==>
      CountAt(r.state, path.edge.a, path) == CountAt(s, path.edge.a, path) + 1
      && CountAt(r.state, path.edge.b, path) == CountAt(s, path.edge.b, path) + 1
    ensures forall j :: j in s.refs && !HasPoint(path.edge, j) ==> Conn(r.state, j) == Conn(s, j)
  {
    var ra := AddAtPoint(s, path.edge.a, path, biddable);
    if ra.thrown.Some? then ra
    else AddAtPoint(ra.state, path.edge.b, path, biddable)
  }

  /**
   * `remove(point, path)`: clears the path at `p`, then at the path's other
   * endpoint.  An unregistered endpoint or an absent path raises an exception
   * after any update already made.
   */
  function RemoveAt(s: Connections, p: int, path: Path): (r: Effect<Connections>)
    requires Valid(s)
    ensures Valid(r.state) && Extends(s, r.state) && r.state.refs == s.refs
    ensures r.thrown.None? ==> HasPoint(path.edge, p)
    ensures r.thrown.None? && path.edge.a != path.edge.b ==>
      CountAt(r.state, path.edge.a, path) + 1 == CountAt(s, path.edge.a, path)
      && CountAt(r.state, path.edge.b, path) + 1 == CountAt(s, path.edge.b, path)
    ensures r.thrown.None? <==>
      HasPoint(path.edge, p)
      && CountAt(s, path.edge.a, path) > (if path.edge.a == path.edge.b then 1 else 0)
      && CountAt(s, path.edge.b, path) > 0
    ensures r.thrown.None? && path.edge.a != path.edge.b ==>
      Loses(Conn(s, path.edge.a), Conn(r.state, path.edge.a), path)
      && Loses(Conn(s, path.edge.b), Conn(r.state, path.edge.b), path)
    ensures forall j :: j in s.refs && !HasPoint(path.edge, j) ==> Conn(r.state, j) == Conn(s, j)
  {
    var r1 := ClearAt(s, p, path);
    if r1.thrown.Some? then r1
    else ClearAt(r1.state, Edges.Target(path.edge, p).value, path)
  }

  /**
   * One end of `remove(point, path)`: an unregistered point, or one whose
   * Connection does not hold the path, raises an exception and changes
   * nothing; otherwise the path's slot is cleared in place.
   */
  function ClearAt(s: Connections, k: int, path: Path): (r: Effect<Connections>)
    requires Valid(s)
    ensures Valid(r.state) && Extends(s, r.state) && r.state.refs == s.refs
    ensures r.thrown.None? <==> k in s.refs && HasPoint(path.edge, k) && Count(Conn(s, k), path) > 0
    ensures r.thrown.Some? ==> r.state == s && r.thrown == Some(IllegalArgument)
    ensures r.thrown.None? ==> Loses(Conn(s, k), Conn(r.state, k), path)
    ensures forall j :: j in s.refs && j != k ==> Conn(r.state, j) == Conn(s, j)
  {
    if k !in s.refs then Effect(s, Some(IllegalArgument))
    else
      match Remove(Conn(s, k), path)
      case Fail(e) => Effect(s, Some(e))
      case Ok((c, _)) => Effect(Put(s, k, c), None)
  }

  /** `remove(path)`: removal starting from endpoint A. */
  function RemovePath(s: Connections, path: Path): (r: Effect<Connections>)
    requires Valid(s)
    ensures Valid(r.state) && Extends(s, r.state) && r.state.refs == s.refs
    ensures r.thrown.None? && path.edge.a != path.edge.b ==>
      CountAt(r.state, path.edge.a, path) + 1 == CountAt(s, path.edge.a, path)
      && CountAt(r.state, path.edge.b, path) + 1 == CountAt(s, path.edge.b, path)
  {
    RemoveAt(s, path.edge.a, path)
  }

  /** `replace(newp, oldp)`: `remove(oldp)`, then `add(newp)`. */
  function Replace(s: Connections, newp: Path, oldp: Path): (r: Effect<Connections>)
    requires Valid(s)
    ensures Valid(r.state) && Extends(s, r.state)
    ensures RemovePath(s, oldp).thrown.Some? ==> r == RemovePath(s, oldp)
    ensures RemovePath(s, oldp).thrown.None? ==> r == AddPath(RemovePath(s, oldp).state, newp, true)
  {
    var r1 := RemovePath(s, oldp);
    if r1.thrown.Some? then r1 else AddPath(r1.state, newp, true)
  }

  /** `hasPath`: whether endpoint A's Connection holds the path (B is not consulted). */
  predicate HasPath(s: Connections, path: Path)
    requires Valid(s)
  {
    path.edge.a in s.refs && Count(Conn(s, path.edge.a), path) > 0
  }

  /** `reachedClosure`: every registered point has both slots occupied. */
  predicate ReachedClosure(s: Connections)
    requires Valid(s)
  {
    forall k :: k in s.refs ==> IsComplete(Conn(s, k))
  }

  /** `reachedClosure` is the absence of a registered point with a free slot. */
  lemma ClosureIffNoFreeSlot(s: Connections)
    requires Valid(s)
    ensures ReachedClosure(s) <==> forall k :: k in s.refs ==> FreeAt(s, k) == 0
  {
    forall k | k in s.refs
      ensures IsComplete(Conn(s, k)) <==> FreeAt(s, k) == 0
    {
      CompleteIffNoFree(Conn(s, k));
    }
  }

  /**
   * `Connection.equals` between two objects of the heap.  The same object is
   * equal to itself.  `ConnectionPath` has no `equals` of its own and each
   * one is created for a single slot of a single Connection, so two distinct
   * objects compare equal only when both hold no link.
   */
  predicate ConnEquals(heap: seq<Connection>, r1: nat, r2: nat)
    requires r1 < |heap| && r2 < |heap|
  {
    r1 == r2
    || (heap[r1].point == heap[r2].point
        && heap[r1].s0.None? && heap[r1].s1.None? && heap[r2].s0.None? && heap[r2].s1.None?)
  }

  /** `copy()`: the copy's own reference map; the objects stay shared. */
  function Copy(s: Connections): map<int, nat>
  {
    s.refs
  }

  /**
   * `mine.isIdentical(theirs)`: every point of `mine` is in `theirs` with an
   * equal Connection object.
   */
  predicate IsIdentical(mine: map<int, nat>, theirs: map<int, nat>, heap: seq<Connection>)
  {
    forall k :: k in mine ==>
      k in theirs && mine[k] < |heap| && theirs[k] < |heap| && ConnEquals(heap, mine[k], theirs[k])
  }

  /**
   * A copy taken of `s` is identical to every later state `t` of the same
   * registry, whatever links changed in between: the copy shares the objects
   * it is compared with.
   */
  lemma CopyStaysIdentical(s: Connections, t: Connections)
    requires Valid(s) && Valid(t) && Extends(s, t)
    ensures IsIdentical(Copy(s), t.refs, t.heap)
  {
  }

  /** Every state the operations produce extends the state they started from. */
  lemma ExtendsTransitive(s: Connections, t: Connections, u: Connections)
    requires Extends(s, t) && Extends(t, u)
    ensures Extends(s, u)
  {
  }

  /**
   * The registry records each link at both of its endpoints: every held path
   * touches its point, leads to a distinct registered point that holds it too,
   * and no point holds one path twice.
   */
  ghost predicate Linked(s: Connections)
  {
    Valid(s)
    && forall k, i :: k in s.refs && (i == 0 || i == 1) && Slot(Conn(s, k), i).Some? ==>
      var e := Slot(Conn(s, k), i).value.path;
      HasPoint(e.edge, k) && e.edge.a != e.edge.b
      && Edges.Target(e.edge, k).value in s.refs
      && Count(Conn(s, Edges.Target(e.edge, k).value), e) == 1
      && Count(Conn(s, k), e) == 1
  }

  /**
   * `add(path)` keeps every link recorded at both ends, for a path between two
   * distinct points that neither endpoint holds yet.
   */
  lemma AddPathKeepsLinked(s: Connections, path: Path, biddable: bool)
    requires Linked(s)
    requires path.edge.a != path.edge.b
    requires CountAt(s, path.edge.a, path) == 0 && CountAt(s, path.edge.b, path) == 0
    requires AddPath(s, path, biddable).thrown.None?
    ensures Linked(AddPath(s, path, biddable).state)
  {
    var t := AddPath(s, path, biddable).state;
    AddPathGains(s, path, biddable);
    forall k, i | k in t.refs && (i == 0 || i == 1) && Slot(Conn(t, k), i).Some?
      ensures
        var e := Slot(Conn(t, k), i).value.path;
        HasPoint(e.edge, k) && e.edge.a != e.edge.b
        && Edges.Target(e.edge, k).value in t.refs
        && Count(Conn(t, Edges.Target(e.edge, k).value), e) == 1
        && Count(Conn(t, k), e) == 1
    {
      GainedKeepsLink(s, t, path, k, i);
    }
  }

  /**
   * `t` is `s` with `path` added at both of its ends: each end gained it in
   * a free slot, and every other point is untouched.
   */
  ghost predicate GainedBoth(s: Connections, t: Connections, path: Path)
  {
    Valid(s) && Valid(t)
    && t.refs.Keys == s.refs.Keys + {path.edge.a, path.edge.b}
    && Gains(Before(s, path.edge.a), Conn(t, path.edge.a), path)
    && Gains(Before(s, path.edge.b), Conn(t, path.edge.b), path)
    && forall j :: j in s.refs && !HasPoint(path.edge, j) ==> Conn(t, j) == Conn(s, j)
  }

  /** One slot of `t` after a path is gained at both its ends still links both ways. */
  lemma GainedKeepsLink(s: Connections, t: Connections, path: Path, k: int, i: int)
    requires Linked(s) && GainedBoth(s, t, path)
    requires path.edge.a != path.edge.b
    requires CountAt(s, path.edge.a, path) == 0 && CountAt(s, path.edge.b, path) == 0
    requires k in t.refs && (i == 0 || i == 1) && Slot(Conn(t, k), i).Some?
    ensures
      var e := Slot(Conn(t, k), i).value.path;
      HasPoint(e.edge, k) && e.edge.a != e.edge.b
      && Edges.Target(e.edge, k).value in t.refs
      && Count(Conn(t, Edges.Target(e.edge, k).value), e) == 1
      && Count(Conn(t, k), e) == 1
  {
    var e := Slot(Conn(t, k), i).value.path;
    if HasPoint(path.edge, k) && Slot(Conn(t, k), i) != Slot(Before(s, k), i) {
      assert e == path;
    } else {
      OldLinkKept(s, t, path, k, i);
    }
  }

  /** A slot that was already filled in `s` keeps its link in `t`. */
  lemma OldLinkKept(s: Connections, t: Connections, path: Path, k: int, i: int)
    requires Linked(s) && GainedBoth(s, t, path)
    requires CountAt(s, path.edge.a, path) == 0 && CountAt(s, path.edge.b, path) == 0
    requires k in t.refs && (i == 0 || i == 1) && Slot(Conn(t, k), i).Some?
    requires !HasPoint(path.edge, k) || Slot(Conn(t, k), i) == Slot(Before(s, k), i)
    ensures
      var e := Slot(Conn(t, k), i).value.path;
      HasPoint(e.edge, k) && e.edge.a != e.edge.b
      && Edges.Target(e.edge, k).value in t.refs
      && Count(Conn(t, Edges.Target(e.edge, k).value), e) == 1
      && Count(Conn(t, k), e) == 1
  {
    var e := Slot(Conn(t, k), i).value.path;
    assert Slot(Before(s, k), i) == Slot(Conn(t, k), i);
    assert k in s.refs;
    assert Slot(Conn(s, k), i).Some?;
    var o := Edges.Target(e.edge, k).value;
    assert HasPoint(e.edge, k) && o in s.refs && Count(Conn(s, o), e) == 1 && Count(Conn(s, k), e) == 1;
    EqualPathCounts(Conn(s, k), e, path);
    if HasPoint(path.edge, o) {
      CountOfOtherPath(Before(s, o), Conn(t, o), path, e);
    }
    if HasPoint(path.edge, k) {
      CountOfOtherPath(Before(s, k), Conn(t, k), path, e);
    }
  }

  /** `add(path)` between two distinct points fills one empty slot at each end. */
  lemma AddPathGains(s: Connections, path: Path, biddable: bool)
    requires Valid(s) && path.edge.a != path.edge.b
    requires AddPath(s, path, biddable).thrown.None?
    ensures Gains(Before(s, path.edge.a), Conn(AddPath(s, path, biddable).state, path.edge.a), path)
    ensures Gains(Before(s, path.edge.b), Conn(AddPath(s, path, biddable).state, path.edge.b), path)
    ensures GainedBoth(s, AddPath(s, path, biddable).state, path)
  {
    var a, b := path.edge.a, path.edge.b;
    var ra := AddAtPoint(s, a, path, biddable);
    var t := AddPath(s, path, biddable).state;
    assert t == AddAtPoint(ra.state, b, path, biddable).state;
    assert Conn(t, a) == Conn(ra.state, a);
    assert Before(ra.state, b) == Before(s, b);
  }

  /** `remove(point, path)` keeps every link recorded at both ends. */
  lemma RemoveAtKeepsLinked(s: Connections, p: int, path: Path)
    requires Linked(s)
    requires RemoveAt(s, p, path).thrown.None?
    ensures Linked(RemoveAt(s, p, path).state)
  {
    var a, b := path.edge.a, path.edge.b;
    assert a != b;
    LinkedAfterLoss(s, RemoveAt(s, p, path).state, path);
  }

  /** Clearing one link at both of its ends keeps the other links recorded at both ends. */
  lemma LinkedAfterLoss(s: Connections, t: Connections, path: Path)
    requires Linked(s) && Valid(t) && t.refs == s.refs
    requires path.edge.a != path.edge.b && path.edge.a in s.refs && path.edge.b in s.refs
    requires Loses(Conn(s, path.edge.a), Conn(t, path.edge.a), path)
    requires Loses(Conn(s, path.edge.b), Conn(t, path.edge.b), path)
    requires forall j :: j in s.refs && !HasPoint(path.edge, j) ==> Conn(t, j) == Conn(s, j)
    ensures Linked(t)
  {
    var a, b := path.edge.a, path.edge.b;
    forall k, i | k in t.refs && (i == 0 || i == 1) && Slot(Conn(t, k), i).Some?
      ensures
        var e := Slot(Conn(t, k), i).value.path;
        HasPoint(e.edge, k) && e.edge.a != e.edge.b
        && Edges.Target(e.edge, k).value in t.refs
        && Count(Conn(t, Edges.Target(e.edge, k).value), e) == 1
        && Count(Conn(t, k), e) == 1
    {
      var e := Slot(Conn(t, k), i).value.path;
      assert Slot(Conn(s, k), i) == Slot(Conn(t, k), i);
      var o := Edges.Target(e.edge, k).value;
      assert HasPoint(e.edge, k) && o in s.refs && Count(Conn(s, o), e) == 1 && Count(Conn(s, k), e) == 1;
      if SameEdge(e.edge, path.edge) {
        assert k == a || k == b;
        CountOfEqualPath(Conn(s, k), e, path);
        CountOfEqualPath(Conn(t, k), e, path);
        assert false;
      }
      if o == a || o == b {
        CountOfOtherPath(Conn(s, o), Conn(t, o), path, e);
      }
      if k == a || k == b {
        CountOfOtherPath(Conn(s, k), Conn(t, k), path, e);
      }
    }
  }

  /**
   * `t` differs from `s` only by cleared slots and newly registered points
   * with no links.
   */
  ghost predicate OnlyClears(s: Connections, t: Connections)
  {
    Valid(s) && Valid(t) && Extends(s, t)
    && (forall k, i :: k in s.refs && (i == 0 || i == 1) ==>
          Slot(Conn(t, k), i) == Slot(Conn(s, k), i) || Slot(Conn(t, k), i).None?)
    && (forall k :: k in t.refs && k !in s.refs ==> Free(Conn(t, k)) == 2)
  }

  /** `t` has the links of `s` and at most some newly registered points with no links. */
  ghost predicate SameLinks(s: Connections, t: Connections)
  {
    Valid(s) && Valid(t) && Extends(s, t)
    && (forall k :: k in s.refs ==> Conn(t, k) == Conn(s, k))
    && (forall k :: k in t.refs && k !in s.refs ==> Free(Conn(t, k)) == 2)
  }

  /** Registering a point changes no link. */
  lemma EnsureSameLinks(s: Connections, k: int)
    requires Valid(s)
    ensures SameLinks(s, Ensure(s, k))
  {
  }

  /** Registering a point keeps every link recorded at both ends and changes no slot. */
  lemma EnsureKeepsLinked(s: Connections, k: int)
    requires Valid(s)
    ensures Linked(s) ==> Linked(Ensure(s, k))
    ensures forall j :: j in s.refs ==> Conn(Ensure(s, k), j) == Conn(s, j)
  {
    EnsureSameLinks(s, k);
    if Linked(s) {
      SameLinksKeepsLinked(s, Ensure(s, k));
    }
  }

  /** With every link recorded at both ends, removing a link a point holds succeeds and keeps that record. */
  lemma RemoveHeldKeepsLinked(s: Connections, p: int, e: Path)
    requires Valid(s) && p in s.refs
    requires (Conn(s, p).s0.Some? && e == Conn(s, p).s0.value.path) || (Conn(s, p).s1.Some? && e == Conn(s, p).s1.value.path)
    ensures Linked(s) ==> RemoveAt(s, p, e).thrown.None? && Linked(RemoveAt(s, p, e).state)
  {
    if Linked(s) {
      var i := if Conn(s, p).s0.Some? && e == Conn(s, p).s0.value.path then 0 else 1;
      assert Slot(Conn(s, p), i).Some? && Slot(Conn(s, p), i).value.path == e;
      assert RemoveAt(s, p, e).thrown.None?;
      RemoveAtKeepsLinked(s, p, e);
    }
  }

  /** A removal only clears slots. */
  lemma RemoveAtOnlyClears(s: Connections, p: int, path: Path)
    requires Valid(s)
    ensures OnlyClears(s, RemoveAt(s, p, path).state)
  {
    var t := RemoveAt(s, p, path).state;
    forall k, i | k in s.refs && (i == 0 || i == 1)
      ensures Slot(Conn(t, k), i) == Slot(Conn(s, k), i) || Slot(Conn(t, k), i).None?
    {
      var r1 := ClearAt(s, p, path);
      if r1.thrown.None? {
        var tp := Edges.Target(path.edge, p).value;
        assert t == ClearAt(r1.state, tp, path).state;
        assert Slot(Conn(r1.state, k), i) == Slot(Conn(s, k), i) || Slot(Conn(r1.state, k), i).None?;
      }
    }
  }

  /** Keeping the same links preserves the both-ends record. */
  lemma SameLinksKeepsLinked(s: Connections, t: Connections)
    requires Linked(s) && SameLinks(s, t)
    ensures Linked(t)
  {
    forall k, i | k in t.refs && (i == 0 || i == 1) && Slot(Conn(t, k), i).Some?
      ensures
        var e := Slot(Conn(t, k), i).value.path;
        HasPoint(e.edge, k) && e.edge.a != e.edge.b
        && Edges.Target(e.edge, k).value in t.refs
        && Count(Conn(t, Edges.Target(e.edge, k).value), e) == 1
        && Count(Conn(t, k), e) == 1
    {
      assert k in s.refs;
    }
  }

  /** Keeping the links twice keeps them. */
  lemma SameLinksTransitive(s: Connections, t: Connections, u: Connections)
    requires SameLinks(s, t) && SameLinks(t, u)
    ensures SameLinks(s, u)
  {
  }

  /** A state that only cleared slots holds no path more often than before. */
  lemma OnlyClearsCount(s: Connections, t: Connections, k: int, path: Path)
    requires OnlyClears(s, t) && k in s.refs
    ensures Count(Conn(t, k), path) <= Count(Conn(s, k), path)
    ensures Free(Conn(t, k)) >= Free(Conn(s, k))
  {
    assert Slot(Conn(t, k), 0) == Slot(Conn(s, k), 0) || Slot(Conn(t, k), 0).None?;
    assert Slot(Conn(t, k), 1) == Slot(Conn(s, k), 1) || Slot(Conn(t, k), 1).None?;
  }

  /** Clearing slots after keeping links is clearing slots. */
  lemma OnlyClearsTransitive(s: Connections, t: Connections, u: Connections)
    requires OnlyClears(s, t) && OnlyClears(t, u)
    ensures OnlyClears(s, u)
  {
    forall k | k in u.refs && k !in s.refs
      ensures Free(Conn(u, k)) == 2
    {
      if k in t.refs {
        OnlyClearsCount(t, u, k, Path(Edge(0, 0), 0.0));
      }
    }
  }
}
