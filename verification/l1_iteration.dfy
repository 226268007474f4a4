/**
 * `lazyman.v2.iterators.L1RunIteration`: each empty slot of a point walks the
 * point's free neighbours nearest first and stops at the first reservation
 * that succeeds.  A free target is linked outright; a full target is
 * challenged on its longest link, then on its other link, and gives one up
 * only when the candidate's score beats the incumbent's.
 */
module L1Iteration {
  import opened Common
  import opened Edges
  import opened V2Path
  import opened V2Point
  import opened V2World

  /**
   * The eviction scores, which depend on elevations and computed lengths the
   * model does not track.  Each is taken in the world as it stands at that
   * moment, so links changed earlier in the pass may change it: `held(w, p)`
   * is `p.compute(1)` for an incumbent, and `offered(w, point, path, next)`
   * is `path.compute(h, l)` for a candidate whose following free path is
   * `next`.
   */
  datatype Scores = Scores(held: (World, Path) -> real, offered: (World, int, Path, Path) -> real)

  /**
   * `check(point, assigned, path, next)`: when the candidate outscores the
   * incumbent `assigned` of target `t`, the incumbent is detached at both ends
   * (`t.disconnect(p2)`, `p2.disconnect(t)`) and the candidate is linked.
   */
  function Check(sc: Scores, w: World, point: int, incumbent: Path, path: Path, next: Path): (r: Result<(World, bool)>)
    ensures r.Ok? && r.value.1 ==> sc.offered(w, point, path, next) > sc.held(w, incumbent)
    ensures r.Ok? && !r.value.1 ==> r.value.0 == w && sc.offered(w, point, path, next) <= sc.held(w, incumbent)
    ensures r.Ok? ==> r.value.0.Keys == w.Keys
  {
    match V2Path.Target(path, point)
    case Fail(e) => Fail(e)
    case Ok(t) =>
      if t !in w then Fail(NullPointer)
      else if sc.offered(w, point, path, next) > sc.held(w, incumbent) then
        match V2Path.Target(incumbent, t)
        case Fail(e) => Fail(e)
        case Ok(p2) =>
          match Detach(w, t, p2)
          case Fail(e) => Fail(e)
          case Ok(w1) =>
            match Join(w1, point, path)
            case Fail(e) => Fail(e)
            case Ok(w2) => Ok((w2, true))
      else Ok((w, false))
  }

  /**
   * A successful eviction keeps a linked world linked, leaves the candidate
   * held at both ends, and takes the incumbent from the target unless the
   * incumbent equals the candidate.
   */
  lemma CheckKeepsLinked(sc: Scores, w: World, point: int, incumbent: Path, path: Path, next: Path)
    requires Linked(w) && point in w && Candidate(point, Some(path))
    ensures var r := Check(sc, w, point, incumbent, path, next);
      r.Ok? ==> Linked(r.value.0) && SameTables(w, r.value.0)
    ensures var r := Check(sc, w, point, incumbent, path, next);
      r.Ok? && r.value.1 ==> InSlot(r.value.0[point], path) && InSlot(r.value.0[Far(path.edge, point)], path)
  {
    var r := Check(sc, w, point, incumbent, path, next);
    SameTablesChain(w, w, w);
    if r.Ok? && r.value.1 {
      var t := V2Path.Target(path, point).value;
      var p2 := V2Path.Target(incumbent, t).value;
      DetachKeepsLinked(w, t, p2);
      var w1 := Detach(w, t, p2).value;
      JoinKeepsLinked(w1, point, path);
      SameTablesChain(w, w1, r.value.0);
    }
  }

  /** The incumbent an eviction challenged is no longer held by the target. */
  lemma CheckDropsIncumbent(sc: Scores, w: World, point: int, t: int, incumbent: Path, path: Path, next: Path)
    requires Linked(w) && point in w && t == Far(path.edge, point)
    requires t in w && (Some(incumbent) == w[t].s0 || Some(incumbent) == w[t].s1)
    ensures var r := Check(sc, w, point, incumbent, path, next);
      r.Ok? && r.value.1 ==> Same(incumbent, path) || !InSlot(r.value.0[t], incumbent)
  {
    var r := Check(sc, w, point, incumbent, path, next);
    if r.Ok? && r.value.1 {
      DetachJoinDrops(w, point, t, V2Path.Target(incumbent, t).value, incumbent, path);
    }
  }

  /**
   * `reserve(point, pp)`: a target with a free slot is linked at both ends
   * (and then `pp.next()` is read, which throws when there is none); a full
   * target with a following free path is challenged on its longest link,
   * then on its other link.
   */
  function Reserve(sc: Scores, w: World, point: int, pp: IndexedPath): (r: Result<(World, bool)>)
    ensures r.Ok? && !r.value.1 ==> r.value.0 == w
    ensures r.Ok? ==> r.value.0.Keys == w.Keys
  {
    if pp.path.None? then Fail(NullPointer)
    else
      var path := pp.path.value;
      match V2Path.Target(path, point)
      case Fail(e) => Fail(e)
      case Ok(t) =>
        if t !in w then Fail(NullPointer)
        else if CanConnect(w[t]) then
          match Join(w, point, path)
          case Fail(e) => Fail(e)
          case Ok(w1) => if pp.next.None? then Fail(NullPointer) else Ok((w1, true))
        else if pp.next.None? then Ok((w, false))
        else match Longest(w[t])
          case None => Ok((w, false))
          case Some(p) =>
            match Check(sc, w, point, p, path, pp.next.value)
            case Fail(e) => Fail(e)
            case Ok(c) =>
              if c.1 then Ok(c)
              else match NextConnection(w[t], p)
                case None => Ok((w, false))
                case Some(q) => Check(sc, w, point, q, path, pp.next.value)
  }

  /**
   * The order of the challenges: a full target gives up its longest link when
   * the candidate outscores it, and only otherwise faces a challenge on its
   * other link; a free target is simply linked.
   */
  lemma ReserveChallengesLongestFirst(sc: Scores, w: World, point: int, pp: IndexedPath)
    requires pp.path.Some? && pp.next.Some?
    requires V2Path.Target(pp.path.value, point).Ok? && V2Path.Target(pp.path.value, point).value in w
    requires WellFormed(w[V2Path.Target(pp.path.value, point).value])
    ensures var t := V2Path.Target(pp.path.value, point).value;
      var path := pp.path.value;
      var r := Reserve(sc, w, point, pp);
      if CanConnect(w[t]) then
        r == (match Join(w, point, path) case Fail(e) => Fail(e) case Ok(w1) => Ok((w1, true)))
      else
        var l := Longest(w[t]).value;
        var o := NextConnection(w[t], l).value;
        {l, o} == {w[t].s0.value, w[t].s1.value} &&
        if sc.offered(w, point, path, pp.next.value) > sc.held(w, l) then r == Check(sc, w, point, l, path, pp.next.value)
        else r == Check(sc, w, point, o, path, pp.next.value)
  {
    var t := V2Path.Target(pp.path.value, point).value;
    if !CanConnect(w[t]) {
      LongestThenNextCoverSlots(w[t]);
    }
  }

  /** A reservation keeps a linked world linked; a true answer holds the candidate at both ends. */
  lemma ReserveKeepsLinked(sc: Scores, w: World, point: int, pp: IndexedPath)
    requires Linked(w) && point in w && Candidate(point, pp.path)
    ensures var r := Reserve(sc, w, point, pp);
      r.Ok? ==> Linked(r.value.0) && SameTables(w, r.value.0)
    ensures var r := Reserve(sc, w, point, pp);
      r.Ok? && r.value.1 ==> InSlot(r.value.0[point], pp.path.value) &&
                             InSlot(r.value.0[Far(pp.path.value.edge, point)], pp.path.value)
  {
    var r := Reserve(sc, w, point, pp);
    SameTablesChain(w, w, w);
    if r.Ok? && r.value.1 {
      var path := pp.path.value;
      var t := V2Path.Target(path, point).value;
      if CanConnect(w[t]) {
        JoinKeepsLinked(w, point, path);
      } else {
        var p := Longest(w[t]).value;
        CheckKeepsLinked(sc, w, point, p, path, pp.next.value);
        if !Check(sc, w, point, p, path, pp.next.value).value.1 {
          CheckKeepsLinked(sc, w, point, NextConnection(w[t], p).value, path, pp.next.value);
        }
      }
    }
  }

  /**
   * The `while` loop of `allocate` for one empty slot: walk the free
   * positions after `index` in `next` order while `index` is below the
   * neighbour count, stopping at the first reservation that succeeds.
   */
  function Scan(sc: Scores, w: World, point: int, index: int): (r: Result<World>)
    requires point in w && index >= -1
    ensures r.Ok? ==> r.value.Keys == w.Keys
    decreases |w[point].sortIndex| - index
  {
    if index >= |w[point].paths| then Ok(w)
    else
      NextIsFirstFree(w[point], index);
      match Next(w[point], index)
      case Fail(e) => Fail(e)
      case Ok(None) => Ok(w)
      case Ok(Some(ip)) =>
        match Reserve(sc, w, point, ip)
        case Fail(e) => Fail(e)
        case Ok(c) => if c.1 then Ok(c.0) else Scan(sc, w, point, ip.index)
  }

  /** The offer `next` makes at free position `k`: its path and the following free position's path. */
  function Offer(pt: Point, k: nat): (ip: IndexedPath)
    requires k < |pt.sortIndex|
    ensures ip.index == k && ip.path == Lookup(pt, pt.sortIndex[k])
  {
    var j := FirstFree(pt, k + 1);
    IndexedPath(k, Lookup(pt, pt.sortIndex[k]), if j < |pt.sortIndex| then Lookup(pt, pt.sortIndex[j]) else None)
  }

  /** The reservation of the offer at position `k` completes and declines. */
  predicate Declines(sc: Scores, w: World, point: int, k: nat)
    requires point in w && k < |w[point].sortIndex|
  {
    var r := Reserve(sc, w, point, Offer(w[point], k));
    r.Ok? && !r.value.1
  }

  /**
   * The reservation at free position `k` after `index` succeeded with world
   * `w2`, every free position between them having declined.
   */
  ghost predicate StopsAt(sc: Scores, w: World, point: int, index: int, k: int, w2: World)
    requires point in w && index >= -1
  {
    index < k < |w[point].sortIndex| && !Taken(w[point], k) &&
    Reserve(sc, w, point, Offer(w[point], k)) == Ok((w2, true)) &&
    (forall j :: index < j < k && !Taken(w[point], j) ==> Declines(sc, w, point, j))
  }

  /** What `next` offers is the offer at the first free position after `index`. */
  lemma NextIsOffer(pt: Point, index: int)
    requires index >= -1 && NextSpec(pt, index).Some?
    ensures NextSpec(pt, index).value.index < |pt.sortIndex|
    ensures NextSpec(pt, index) == Some(Offer(pt, NextSpec(pt, index).value.index))
  {
    NextIsFirstFree(pt, index);
  }

  /** A success at `k` after a decline at `i`, the first free position after `index`, is a success from `index`. */
  lemma StopsEarlier(sc: Scores, w: World, point: int, index: int, i: int, k: int, w2: World)
    requires point in w && -1 <= index < i < |w[point].sortIndex|
    requires forall j :: index < j < i ==> Taken(w[point], j)
    requires Declines(sc, w, point, i) && StopsAt(sc, w, point, i, k, w2)
    ensures StopsAt(sc, w, point, index, k, w2)
  {
    forall j | index < j < k && !Taken(w[point], j)
      ensures Declines(sc, w, point, j)
    {
      if j > i {
        assert i < j < k;
      }
    }
  }

  /**
   * A scan that changes the world made exactly one successful reservation,
   * at a free position after `index`, every free position before it having
   * declined.
   */
  lemma {:induction false} ScanStopsAtFirstSuccess(sc: Scores, w: World, point: int, index: int)
    requires point in w && index >= -1
    ensures var r := Scan(sc, w, point, index);
      r.Ok? && r.value != w ==> exists k :: StopsAt(sc, w, point, index, k, r.value)
    decreases |w[point].sortIndex| - index
  {
    var r := Scan(sc, w, point, index);
    if r.Ok? && r.value != w {
      NextIsFirstFree(w[point], index);
      var i := NextSpec(w[point], index).value.index;
      var ip := Offer(w[point], i);
      NextIsOffer(w[point], index);
      var c := Reserve(sc, w, point, ip).value;
      if !c.1 {
        assert Declines(sc, w, point, i);
        assert r == Scan(sc, w, point, i);
        ScanStopsAtFirstSuccess(sc, w, point, i);
        var k :| StopsAt(sc, w, point, i, k, r.value);
        StopsEarlier(sc, w, point, index, i, k, r.value);
      } else {
        assert r.value == c.0;
        assert StopsAt(sc, w, point, index, i, r.value);
      }
    }
  }

  /** A scan over a linked world with well-formed tables keeps it linked. */
  lemma {:induction false} ScanKeepsLinked(sc: Scores, w: World, point: int, index: int)
    requires Linked(w) && Neighbours(w) && point in w && index >= -1
    ensures Scan(sc, w, point, index).Ok? ==>
      Linked(Scan(sc, w, point, index).value) && SameTables(w, Scan(sc, w, point, index).value)
    decreases |w[point].sortIndex| - index
  {
    SameTablesChain(w, w, w);
    if Scan(sc, w, point, index).Ok? && index < |w[point].paths| {
      NextIsFirstFree(w[point], index);
      if NextSpec(w[point], index).Some? {
        var ip := NextSpec(w[point], index).value;
        LookupIsCandidate(w, point, w[point].sortIndex[ip.index]);
        ReserveKeepsLinked(sc, w, point, ip);
        if !Reserve(sc, w, point, ip).value.1 {
          ScanKeepsLinked(sc, w, point, ip.index);
        }
      }
    }
  }

  /** `allocate`: a scan for slot 0 when it is empty, then for slot 1 when it is empty. */
  function Allocate(sc: Scores, w: World, point: int): (r: Result<World>)
    requires point in w
    ensures r.Ok? ==> r.value.Keys == w.Keys
    ensures IsConnected(w[point]) ==> r == Ok(w)
  {
    var r1 := if w[point].s0.None? then Scan(sc, w, point, -1) else Ok(w);
    match r1
    case Fail(e) => Fail(e)
    case Ok(w1) => if w1[point].s1.None? then Scan(sc, w1, point, -1) else Ok(w1)
  }

  /** `allocate` keeps a linked world with well-formed tables linked. */
  lemma AllocateKeepsLinked(sc: Scores, w: World, point: int)
    requires Linked(w) && Neighbours(w) && point in w
    ensures Allocate(sc, w, point).Ok? ==>
      Linked(Allocate(sc, w, point).value) && SameTables(w, Allocate(sc, w, point).value)
  {
    SameTablesChain(w, w, w);
    if Allocate(sc, w, point).Ok? {
      if w[point].s0.None? {
        ScanKeepsLinked(sc, w, point, -1);
      }
      var w1 := if w[point].s0.None? then Scan(sc, w, point, -1).value else w;
      SameTablesChain(w, w1, w1);
      if w1[point].s1.None? {
        ScanKeepsLinked(sc, w1, point, -1);
        SameTablesChain(w, w1, Allocate(sc, w, point).value);
      }
    }
  }

  /** `allocate` as the pass hands it a point. */
  function Allocator(sc: Scores): (World, int) -> Result<World>
  {
    (w: World, s: int) => if s in w then Allocate(sc, w, s) else Fail(NullPointer)
  }

  /** `run`: every listed point not linked on both slots is allocated; the first exception ends the pass. */
  function Run(sc: Scores, w: World, order: seq<int>): (r: Result<World>)
    ensures (forall i :: 0 <= i < |order| ==> Full(w, order[i])) ==> r == Ok(w)
  {
    Pass(Allocator(sc), w, order)
  }

  /** A pass over a linked world with well-formed tables leaves it linked. */
  lemma RunKeepsLinked(sc: Scores, w: World, order: seq<int>)
    requires Linked(w) && Neighbours(w)
    ensures Run(sc, w, order).Ok? ==> Linked(Run(sc, w, order).value)
  {
    forall w1: World, s: int | Linked(w1) && Neighbours(w1) && s in w1 && Allocator(sc)(w1, s).Ok?
      ensures Linked(Allocator(sc)(w1, s).value) && SameTables(w1, Allocator(sc)(w1, s).value)
    {
      AllocateKeepsLinked(sc, w1, s);
    }
    PassKeepsLinked(Allocator(sc), w, order);
  }
}
