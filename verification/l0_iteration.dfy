/**
 * `lazyman.v2.iterators.L0RunIteration`: each point that is not yet linked on
 * both slots first drops links shorter than its two nearest neighbours, then
 * offers its nearest and second-nearest paths, evicting a target's link only
 * when that link is strictly longer than the offer.
 */
module L0Iteration {
  import opened Common
  import opened Edges
  import opened V2Path
  import opened V2Point
  import opened V2World

  /**
   * The eviction of `connect`: the incumbent `p` of target `t` is detached at
   * both ends (`p2.disconnect(t)`, `t.disconnect(p2)`), then `path` is linked.
   */
  function Evict(w: World, point: int, t: int, p: Path, path: Path): (r: Result<World>)
  {
    match V2Path.Target(p, t)
    case Fail(e) => Fail(e)
    case Ok(p2) =>
      match Detach(w, p2, t)
      case Fail(e) => Fail(e)
      case Ok(w1) => Join(w1, point, path)
  }

  /**
   * `connect(point, path, next)`: a target with a free slot is linked; a full
   * target gives up its longest link if that is strictly longer than `path`,
   * else its other link under the same rule; otherwise nothing changes and
   * the answer is false.
   */
  function Connect(w: World, point: int, path: Option<Path>, next: Option<Path>): (r: Result<(World, bool)>)
    ensures r.Ok? && !r.value.1 ==> r.value.0 == w
    ensures r.Ok? ==> r.value.0.Keys == w.Keys
  {
    if next.None? || path.None? then Fail(NullPointer)
    else match V2Path.Target(path.value, point)
      case Fail(e) => Fail(e)
      case Ok(t) =>
        if t !in w then Fail(NullPointer)
        else if CanConnect(w[t]) then
          match Join(w, point, path.value)
          case Fail(e) => Fail(e)
          case Ok(w1) => Ok((w1, true))
        else match Longest(w[t])
          case None => Fail(NullPointer)
          case Some(p) =>
            if p.actualLength > path.value.actualLength then
              match Evict(w, point, t, p, path.value)
              case Fail(e) => Fail(e)
              case Ok(w1) => Ok((w1, true))
            else match NextConnection(w[t], p)
              case None => Fail(NullPointer)
              case Some(q) =>
                if q.actualLength > path.value.actualLength then
                  match Evict(w, point, t, q, path.value)
                  case Fail(e) => Fail(e)
                  case Ok(w1) => Ok((w1, true))
                else Ok((w, false))
  }

  /** Evicting a link of a linked world and linking the candidate keeps it linked. */
  lemma EvictKeepsLinked(w: World, point: int, t: int, p: Path, path: Path)
    requires Linked(w) && point in w && Candidate(point, Some(path))
    ensures Evict(w, point, t, p, path).Ok? ==> Linked(Evict(w, point, t, p, path).value)
  {
    var r := Evict(w, point, t, p, path);
    if r.Ok? {
      var p2 := V2Path.Target(p, t).value;
      DetachKeepsLinked(w, p2, t);
      JoinKeepsLinked(Detach(w, p2, t).value, point, path);
    }
  }

  /** The incumbent evicted from the target is no longer held there, unless it equals the candidate. */
  lemma EvictDropsIncumbent(w: World, point: int, t: int, p: Path, path: Path)
    requires Linked(w) && point in w && t == Far(path.edge, point)
    requires t in w && (Some(p) == w[t].s0 || Some(p) == w[t].s1)
    ensures Evict(w, point, t, p, path).Ok? ==> Same(p, path) || !InSlot(Evict(w, point, t, p, path).value[t], p)
  {
    var r := Evict(w, point, t, p, path);
    if r.Ok? && !Same(p, path) {
      var p2 := V2Path.Target(p, t).value;
      DetachDropsLink(w, p2, t);
      var w1 := Detach(w, p2, t).value;
      var q :| DropsOne(w[p2], w1[p2], q) && DropsOne(w[t], w1[t], q) && HasPoint(q.edge, p2) && HasPoint(q.edge, t);
      SameEnds(p, q, t, p2);
      JoinAddsOnly(w1, point, path, t);
      EvictedStaysOut(w[t], w1[t], r.value[t], p, q, path);
    }
  }

  /** `connect` keeps a linked world linked and changes only slots. */
  lemma ConnectKeepsLinked(w: World, point: int, path: Option<Path>, next: Option<Path>)
    requires Linked(w) && point in w && Candidate(point, path)
    ensures var r := Connect(w, point, path, next);
      r.Ok? ==> Linked(r.value.0) && SameTables(w, r.value.0)
  {
    var r := Connect(w, point, path, next);
    SameTablesChain(w, w, w);
    if r.Ok? && r.value.1 {
      var t := Far(path.value.edge, point);
      if CanConnect(w[t]) {
        JoinKeepsLinked(w, point, path.value);
      } else {
        assert WellFormed(w[t]);
        LongestIsChallenged(w, point, path.value, next);
        EvictKeepsLinked(w, point, t, Longest(w[t]).value, path.value);
      }
    }
  }

  /** A true answer of `connect` leaves the candidate held at both ends. */
  lemma ConnectHolds(w: World, point: int, path: Option<Path>, next: Option<Path>)
    ensures var r := Connect(w, point, path, next);
      r.Ok? && r.value.1 ==>
        path.Some? && InSlot(r.value.0[point], path.value) && InSlot(r.value.0[Far(path.value.edge, point)], path.value)
  {
  }

  /**
   * When the target was full, a true answer of `connect` means an incumbent
   * of the target strictly longer than the candidate has been given up.
   */
  lemma ConnectEvicts(w: World, point: int, path: Option<Path>, next: Option<Path>)
    requires Linked(w) && point in w && Candidate(point, path)
    ensures var r := Connect(w, point, path, next);
      r.Ok? && r.value.1 && !CanConnect(w[Far(path.value.edge, point)]) ==>
        var t := Far(path.value.edge, point);
        exists e :: (Some(e) == w[t].s0 || Some(e) == w[t].s1) && e.actualLength > path.value.actualLength &&
                    (Same(e, path.value) || !InSlot(r.value.0[t], e))
  {
    var r := Connect(w, point, path, next);
    if r.Ok? && r.value.1 {
      var t := Far(path.value.edge, point);
      if !CanConnect(w[t]) {
        assert WellFormed(w[t]);
        LongestIsChallenged(w, point, path.value, next);
        EvictDropsIncumbent(w, point, t, Longest(w[t]).value, path.value);
      }
    }
  }

  /**
   * On a linked world, a full target's decision rests on its longest link
   * alone: a true answer is the eviction of the longest link, and a longest
   * link no longer than the candidate means a false answer with nothing
   * changed.  The second challenge, against `nextConnection`, never succeeds
   * where the first failed, since the other link is no longer than the longest.
   */
  lemma LongestIsChallenged(w: World, point: int, path: Path, next: Option<Path>)
    requires V2Path.Target(path, point).Ok? && V2Path.Target(path, point).value in w
    requires WellFormed(w[V2Path.Target(path, point).value])
    requires !CanConnect(w[V2Path.Target(path, point).value]) && next.Some?
    ensures var t := V2Path.Target(path, point).value;
      IsConnected(w[t]) && Longest(w[t]).Some? &&
      (Some(Longest(w[t]).value) == w[t].s0 || Some(Longest(w[t]).value) == w[t].s1)
    ensures var t := V2Path.Target(path, point).value;
      var r := Connect(w, point, Some(path), next);
      if Longest(w[t]).value.actualLength > path.actualLength then
        r == (match Evict(w, point, t, Longest(w[t]).value, path)
              case Fail(e) => Fail(e)
              case Ok(w1) => Ok((w1, true)))
      else r == Ok((w, false))
  {
    var t := V2Path.Target(path, point).value;
    var pt := w[t];
    assert IsConnected(pt);
    var p := Longest(pt).value;
    var q := NextConnection(pt, p);
    assert q.Some? ==> q.value.actualLength <= p.actualLength;
  }

  /** Empties slot `index` without touching the counter. */
  function ClearSlot(pt: Point, index: int): Point
  {
    if index == 0 then pt.(s0 := None) else pt.(s1 := None)
  }

  /**
   * One pass of the `checkPoint` loop: a link in slot `index` shorter than
   * either nearest path is detached at both ends and the slot is emptied.
   * A missing nearest path throws only where the short-circuit test reads
   * it: the second is not read once the link is shorter than the first.
   */
  function CheckSlot(w: World, point: int, index: int, p0: Option<Path>, p1: Option<Path>): (r: Result<World>)
    requires point in w
    ensures r.Ok? ==> r.value.Keys == w.Keys
  {
    var o := if index == 0 then w[point].s0 else w[point].s1;
    if o.None? then Ok(w)
    else if p0.None? then Fail(NullPointer)
    else if o.value.actualLength >= p0.value.actualLength && p1.None? then Fail(NullPointer)
    else if o.value.actualLength < p0.value.actualLength || o.value.actualLength < p1.value.actualLength then
      match V2Path.Target(o.value, point)
      case Fail(e) => Fail(e)
      case Ok(t) =>
        match Detach(w, t, point)
        case Fail(e) => Fail(e)
        case Ok(w1) => Ok(w1[point := ClearSlot(w1[point], index)])
    else Ok(w)
  }

  /** `checkPoint`: the loop over slot 0 then slot 1. */
  function CheckPoint(w: World, point: int, p0: Option<Path>, p1: Option<Path>): (r: Result<World>)
    requires point in w
    ensures r.Ok? ==> r.value.Keys == w.Keys
  {
    match CheckSlot(w, point, 0, p0, p1)
    case Fail(e) => Fail(e)
    case Ok(w1) => CheckSlot(w1, point, 1, p0, p1)
  }

  /** The slot `index` holds a link no shorter than either nearest path, or nothing. */
  predicate NotShorter(pt: Point, index: int, p0: Option<Path>, p1: Option<Path>)
  {
    var o := if index == 0 then pt.s0 else pt.s1;
    o.Some? ==> p0.Some? && p1.Some? &&
                o.value.actualLength >= p0.value.actualLength && o.value.actualLength >= p1.value.actualLength
  }

  /** A pass keeps a linked world linked and changes only slots. */
  lemma CheckSlotKeepsLinked(w: World, point: int, index: int, p0: Option<Path>, p1: Option<Path>)
    requires Linked(w) && point in w && (index == 0 || index == 1)
    ensures var r := CheckSlot(w, point, index, p0, p1);
      r.Ok? ==> Linked(r.value) && SameTables(w, r.value)
  {
    var r := CheckSlot(w, point, index, p0, p1);
    var o := if index == 0 then w[point].s0 else w[point].s1;
    SameTablesChain(w, w, w);
    if r.Ok? && o.Some? && r.value != w {
      var t := V2Path.Target(o.value, point).value;
      DetachKeepsLinked(w, t, point);
      CheckSlotDetaches(w, point, index, p0, p1);
    }
  }

  /**
   * A pass that changes the world detaches the link in slot `index`: the
   * result is the detached world, where that slot is already empty.
   */
  lemma CheckSlotDetaches(w: World, point: int, index: int, p0: Option<Path>, p1: Option<Path>)
    requires Linked(w) && point in w && (index == 0 || index == 1)
    ensures var r := CheckSlot(w, point, index, p0, p1);
      var o := if index == 0 then w[point].s0 else w[point].s1;
      r.Ok? && r.value != w ==>
        o.Some? && V2Path.Target(o.value, point).Ok? &&
        r == Detach(w, V2Path.Target(o.value, point).value, point) &&
        (if index == 0 then r.value[point].s0.None? && r.value[point].s1 == w[point].s1
         else r.value[point].s1.None? && r.value[point].s0 == w[point].s0)
  {
    var r := CheckSlot(w, point, index, p0, p1);
    var o := if index == 0 then w[point].s0 else w[point].s1;
    if r.Ok? && r.value != w {
      var t := V2Path.Target(o.value, point).value;
      DetachDropsLink(w, t, point);
      var w1 := Detach(w, t, point).value;
      var q :| DropsOne(w[t], w1[t], q) && DropsOne(w[point], w1[point], q) && HasPoint(q.edge, t) && HasPoint(q.edge, point);
      SameEnds(o.value, q, point, t);
      // the slot emptied by the detach is slot `index`: the other one is not equal to q
      if index == 0 && w[point].s1.Some? && Same(w[point].s1.value, q) {
        SameEdgeEquivalence(w[point].s0.value.edge, q.edge, w[point].s1.value.edge);
      }
      if index == 1 && w[point].s0.Some? && Same(w[point].s0.value, q) {
        SameEdgeEquivalence(w[point].s1.value.edge, q.edge, w[point].s0.value.edge);
      }
      assert ClearSlot(w1[point], index) == w1[point];
      assert r.value == w1;
    }
  }

  /** After a pass, slot `index` holds nothing shorter than either nearest path; the other slot is as it was. */
  lemma CheckSlotBound(w: World, point: int, index: int, p0: Option<Path>, p1: Option<Path>)
    requires Linked(w) && point in w && (index == 0 || index == 1)
    ensures var r := CheckSlot(w, point, index, p0, p1);
      r.Ok? ==> NotShorter(r.value[point], index, p0, p1) &&
                (index == 0 ==> r.value[point].s1 == w[point].s1) &&
                (index == 1 ==> r.value[point].s0 == w[point].s0)
  {
    CheckSlotDetaches(w, point, index, p0, p1);
  }

  /**
   * `checkPoint` keeps a linked world linked and leaves the point holding
   * only links no shorter than either of its two nearest paths.
   */
  lemma CheckPointKeepsLinked(w: World, point: int, p0: Option<Path>, p1: Option<Path>)
    requires Linked(w) && point in w
    ensures var r := CheckPoint(w, point, p0, p1);
      r.Ok? ==> Linked(r.value) && SameTables(w, r.value) &&
                NotShorter(r.value[point], 0, p0, p1) && NotShorter(r.value[point], 1, p0, p1)
  {
    var r := CheckPoint(w, point, p0, p1);
    CheckSlotKeepsLinked(w, point, 0, p0, p1);
    CheckSlotBound(w, point, 0, p0, p1);
    if r.Ok? {
      var w1 := CheckSlot(w, point, 0, p0, p1).value;
      CheckSlotKeepsLinked(w1, point, 1, p0, p1);
      CheckSlotBound(w1, point, 1, p0, p1);
      SameTablesChain(w, w1, r.value);
    }
  }

  /**
   * `allocate`: reads the three nearest neighbours, drops links shorter than
   * the two nearest, then offers the nearest and the second nearest path
   * while the point can still connect; the third nearest is the `next` path.
   */
  function Allocate(w: World, point: int): (r: Result<World>)
    requires point in w
    ensures r.Ok? ==> r.value.Keys == w.Keys
    ensures |w[point].sortIndex| < 3 ==> r == Fail(IndexOutOfBounds)
  {
    var pt := w[point];
    if |pt.sortIndex| < 3 then Fail(IndexOutOfBounds)
    else
      var pn := Lookup(pt, pt.sortIndex[2]);
      var p0 := Lookup(pt, pt.sortIndex[0]);
      var p1 := Lookup(pt, pt.sortIndex[1]);
      match CheckPoint(w, point, p0, p1)
      case Fail(e) => Fail(e)
      case Ok(w1) =>
        var r2 := if CanConnect(w1[point]) then Connect(w1, point, p0, pn) else Ok((w1, false));
        if r2.Fail? then Fail(r2.error)
        else
          var w2 := r2.value.0;
          var r3 := if CanConnect(w2[point]) then Connect(w2, point, p1, pn) else Ok((w2, false));
          if r3.Fail? then Fail(r3.error) else Ok(r3.value.0)
  }

  /** `allocate` keeps a linked world with well-formed tables linked. */
  lemma AllocateKeepsLinked(w: World, point: int)
    requires Linked(w) && Neighbours(w) && point in w
    ensures Allocate(w, point).Ok? ==> Linked(Allocate(w, point).value) && SameTables(w, Allocate(w, point).value)
  {
    var pt := w[point];
    if Allocate(w, point).Ok? {
      var pn := Lookup(pt, pt.sortIndex[2]);
      var p0 := Lookup(pt, pt.sortIndex[0]);
      var p1 := Lookup(pt, pt.sortIndex[1]);
      LookupIsCandidate(w, point, pt.sortIndex[0]);
      LookupIsCandidate(w, point, pt.sortIndex[1]);
      CheckPointKeepsLinked(w, point, p0, p1);
      var w1 := CheckPoint(w, point, p0, p1).value;
      if CanConnect(w1[point]) {
        ConnectKeepsLinked(w1, point, p0, pn);
      }
      var w2 := if CanConnect(w1[point]) then Connect(w1, point, p0, pn).value.0 else w1;
      SameTablesChain(w, w1, w2);
      if CanConnect(w2[point]) {
        ConnectKeepsLinked(w2, point, p1, pn);
        SameTablesChain(w, w2, Allocate(w, point).value);
      }
    }
  }

  /** `allocate` as the pass hands it a point. */
  function Allocator(): (World, int) -> Result<World>
  {
    (w: World, s: int) => if s in w then Allocate(w, s) else Fail(NullPointer)
  }

  /** `run`: every listed point not linked on both slots is allocated; the first exception ends the pass. */
  function Run(w: World, order: seq<int>): (r: Result<World>)
    ensures (forall i :: 0 <= i < |order| ==> Full(w, order[i])) ==> r == Ok(w)
  {
    Pass(Allocator(), w, order)
  }

  /** A pass over a linked world with well-formed tables leaves it linked. */
  lemma RunKeepsLinked(w: World, order: seq<int>)
    requires Linked(w) && Neighbours(w)
    ensures Run(w, order).Ok? ==> Linked(Run(w, order).value)
  {
    forall w1: World, s: int | Linked(w1) && Neighbours(w1) && s in w1 && Allocator()(w1, s).Ok?
      ensures Linked(Allocator()(w1, s).value) && SameTables(w1, Allocator()(w1, s).value)
    {
      AllocateKeepsLinked(w1, s);
    }
    PassKeepsLinked(Allocator(), w, order);
  }
}
