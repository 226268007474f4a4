/**
 * `lazyman.v2.iterators.L2RunIteration`: an allocation collects bids over
 * every free neighbour of the point (one bid for a free target, and a bid
 * against each incumbent of a full target that the candidate outscores),
 * sorts them by descending delta and applies the first one only.
 */
module L2Iteration {
  import opened Common
  import opened Order
  import opened Edges
  import opened V2Path
  import opened V2Point
  import opened V2World

  /**
   * The scores, which depend on elevations, chain lengths and computed lengths
   * the model does not track.  Each is taken in the world the bids are
   * collected in, so the bids for one point may score differently from those
   * for the next: `held(w, p)` is `p.compute(2)` for an incumbent,
   * `offered(w, point, path, next)` is the candidate's `path.compute(h, l, c)`,
   * and `free(w, path, next)` is the ratio a free target's bid carries,
   * `(path + next) / path` in measured lengths, or `path / path` with no next.
   */
  datatype Scores = Scores(held: (World, Path) -> real, offered: (World, int, Path, Path) -> real,
                           free: (World, Path, Option<Path>) -> real)

  /** A bid: the candidate path, the incumbent it would replace (none for a free target) and its delta. */
  datatype Bid = Bid(path: Path, incumbent: Option<Path>, delta: real)

  /** `Bid.compareTo`: the coarse step of `o.delta - delta`. */
  function CompareTo(b: Bid, o: Bid): int
  {
    Coarse(o.delta - b.delta)
  }

  /** The sort key the comparator induces: a larger delta sorts first. */
  function Key(b: Bid): real
  {
    -b.delta
  }

  /** `compareTo` orders bids by descending delta: its sign is that of the key difference. */
  lemma CompareToIsDescendingDelta(b: Bid, o: Bid)
    ensures Sgn(CompareTo(b, o)) == SgnR(Key(b) - Key(o))
    ensures CompareTo(b, o) < 0 <==> b.delta > o.delta
    ensures Sgn(CompareTo(b, o)) == -Sgn(CompareTo(o, b))
  {
  }

  /**
   * `check(point, assigned, path, next, bids)`: a bid against the incumbent,
   * with delta `d2 - d1`, exactly when the candidate's score `d2` beats the
   * incumbent's `d1`.
   */
  function CheckBid(sc: Scores, w: World, point: int, incumbent: Path, path: Path, next: Path): (r: seq<Bid>)
    ensures |r| <= 1
    ensures |r| == 1 <==> sc.offered(w, point, path, next) > sc.held(w, incumbent)
    ensures |r| == 1 ==> r[0] == Bid(path, Some(incumbent), sc.offered(w, point, path, next) - sc.held(w, incumbent))
    ensures |r| == 1 ==> r[0].delta > 0.0
  {
    var d1 := sc.held(w, incumbent);
    var d2 := sc.offered(w, point, path, next);
    if d2 > d1 then [Bid(path, Some(incumbent), d2 - d1)] else []
  }

  /** The number of bids for a free target. */
  function FreeBids(bs: seq<Bid>): nat
  {
    if |bs| == 0 then 0 else (if bs[0].incumbent.None? then 1 else 0) + FreeBids(bs[1..])
  }

  /** Counting free bids over a concatenation. */
  lemma {:induction false} FreeBidsAppend(a: seq<Bid>, b: seq<Bid>)
    ensures FreeBids(a + b) == FreeBids(a) + FreeBids(b)
    decreases |a|
  {
    if |a| > 0 {
      assert (a + b)[0] == a[0] && (a + b)[1..] == a[1..] + b;
      FreeBidsAppend(a[1..], b);
    } else {
      assert a + b == b;
    }
  }

  /**
   * `reserve(point, pp, bids, emptyTaken)`: the bids one free position adds,
   * and whether a free-target bid was taken.  A free target gets a bid unless
   * one was already taken; otherwise a full target (or a free one when a bid
   * was taken) with a following free path is checked against its longest
   * link and then its other link.
   */
  function ReserveBids(sc: Scores, w: World, point: int, pp: IndexedPath, emptyTaken: bool): (r: Result<(seq<Bid>, bool)>)
    ensures r.Ok? ==> (r.value.1 <==> FreeBids(r.value.0) == 1) && FreeBids(r.value.0) <= 1
    ensures r.Ok? && emptyTaken ==> FreeBids(r.value.0) == 0
    ensures r.Ok? ==> forall b :: b in r.value.0 ==> Some(b.path) == pp.path
    ensures r.Ok? ==> forall b :: b in r.value.0 && b.incumbent.Some? ==> b.delta > 0.0
  {
    if pp.path.None? then Fail(NullPointer)
    else
      var path := pp.path.value;
      match V2Path.Target(path, point)
      case Fail(e) => Fail(e)
      case Ok(t) =>
        if t !in w then Fail(NullPointer)
        else if CanConnect(w[t]) && !emptyTaken then
          Ok(([Bid(path, None, sc.free(w, path, pp.next))], true))
        else if pp.next.None? then Ok(([], false))
        else match Longest(w[t])
          case None => Ok(([], false))
          case Some(p) =>
            var b1 := CheckBid(sc, w, point, p, path, pp.next.value);
            match NextConnection(w[t], p)
            case None => Ok((b1, false))
            case Some(q) =>
              var b2 := CheckBid(sc, w, point, q, path, pp.next.value);
              FreeBidsAppend(b1, b2);
              Ok((b1 + b2, false))
  }

  /**
   * The `while` loop of `allocate` for one empty slot: every free position
   * after `index` is reserved in `next` order (the loop does not stop at a
   * bid), threading the flag that a free-target bid has been taken.
   */
  function ScanBids(sc: Scores, w: World, point: int, index: int, emptyTake: bool): (r: Result<(seq<Bid>, bool)>)
    requires point in w && index >= -1
    ensures r.Ok? && emptyTake ==> r.value.1 && FreeBids(r.value.0) == 0
    ensures r.Ok? && !emptyTake ==> (r.value.1 <==> FreeBids(r.value.0) == 1) && FreeBids(r.value.0) <= 1
    ensures r.Ok? ==> forall b :: b in r.value.0 && b.incumbent.Some? ==> b.delta > 0.0
    decreases |w[point].sortIndex| - index
  {
    if index >= |w[point].paths| then Ok(([], emptyTake))
    else
      NextIsFirstFree(w[point], index);
      match Next(w[point], index)
      case Fail(e) => Fail(e)
      case Ok(None) => Ok(([], emptyTake))
      case Ok(Some(ip)) =>
        match ReserveBids(sc, w, point, ip, emptyTake)
        case Fail(e) => Fail(e)
        case Ok(c) =>
          match ScanBids(sc, w, point, ip.index, emptyTake || c.1)
          case Fail(e) => Fail(e)
          case Ok(rest) =>
            FreeBidsAppend(c.0, rest.0);
            Ok((c.0 + rest.0, rest.1))
  }

  /**
   * The bids of one `allocate`: a scan for slot 0 when it is empty, then one
   * for slot 1 when it is empty, sharing the free-target flag.
   */
  function Bids(sc: Scores, w: World, point: int): (r: Result<seq<Bid>>)
    requires point in w
    ensures r.Ok? ==> FreeBids(r.value) <= 1
    ensures r.Ok? ==> forall b :: b in r.value && b.incumbent.Some? ==> b.delta > 0.0
    ensures IsConnected(w[point]) ==> r == Ok([])
  {
    var r0 := if w[point].s0.None? then ScanBids(sc, w, point, -1, false) else Ok(([], false));
    match r0
    case Fail(e) => Fail(e)
    case Ok(c0) =>
      var r1 := if w[point].s1.None? then ScanBids(sc, w, point, -1, c0.1) else Ok(([], c0.1));
      match r1
      case Fail(e) => Fail(e)
      case Ok(c1) =>
        FreeBidsAppend(c0.0, c1.0);
        Ok(c0.0 + c1.0)
  }

  /**
   * `connect(point, path, assigned, ...)`: a bid without an incumbent links
   * both ends; a bid with one first detaches the incumbent at both ends
   * (`t.disconnect(p2)`, `p2.disconnect(t)`), then links the candidate.
   */
  function Apply(w: World, point: int, b: Bid): (r: Result<World>)
    ensures r.Ok? ==> r.value.Keys == w.Keys
  {
    if b.incumbent.None? then Join(w, point, b.path)
    else
      match V2Path.Target(b.path, point)
      case Fail(e) => Fail(e)
      case Ok(t) =>
        match V2Path.Target(b.incumbent.value, t)
        case Fail(e) => Fail(e)
        case Ok(p2) =>
          match Detach(w, t, p2)
          case Fail(e) => Fail(e)
          case Ok(w1) => Join(w1, point, b.path)
  }

  /**
   * Applying a bid leaves the candidate held at both ends and, for a bid with
   * an incumbent of the target, the incumbent no longer held by the target
   * (unless it is the candidate itself).
   */
  lemma ApplyDropsIncumbent(w: World, point: int, b: Bid)
    requires Linked(w) && point in w
    requires var t := Far(b.path.edge, point);
      b.incumbent.Some? ==> t in w && (b.incumbent == w[t].s0 || b.incumbent == w[t].s1)
    ensures var r := Apply(w, point, b);
      r.Ok? ==> InSlot(r.value[point], b.path) && InSlot(r.value[Far(b.path.edge, point)], b.path)
    ensures var r := Apply(w, point, b);
      r.Ok? && b.incumbent.Some? ==> Same(b.incumbent.value, b.path) || !InSlot(r.value[Far(b.path.edge, point)], b.incumbent.value)
  {
    if Apply(w, point, b).Ok? && b.incumbent.Some? {
      var t := V2Path.Target(b.path, point).value;
      DetachJoinDrops(w, point, t, V2Path.Target(b.incumbent.value, t).value, b.incumbent.value, b.path);
    }
  }

  /** `allocate`: the bids are sorted by descending delta and only the first is applied. */
  function Allocate(sc: Scores, w: World, point: int): (r: Result<World>)
    requires point in w
    ensures r.Ok? ==> r.value.Keys == w.Keys
    ensures IsConnected(w[point]) ==> r == Ok(w)
  {
    match Bids(sc, w, point)
    case Fail(e) => Fail(e)
    case Ok(bs) =>
      if |bs| == 0 then Ok(w)
      else Apply(w, point, SortBy(bs, Key)[0])
  }

  /**
   * One `allocate` makes at most one change: it applies the earliest bid
   * with the greatest delta, or nothing when there is no bid.
   */
  lemma AllocateAppliesBestBid(sc: Scores, w: World, point: int)
    requires point in w && Bids(sc, w, point).Ok?
    ensures var bs := Bids(sc, w, point).value;
      if |bs| == 0 then Allocate(sc, w, point) == Ok(w)
      else exists i :: (0 <= i < |bs| && Allocate(sc, w, point) == Apply(w, point, bs[i]) &&
        (forall j :: 0 <= j < |bs| ==> bs[j].delta <= bs[i].delta) &&
        (forall j :: 0 <= j < i ==> bs[j].delta < bs[i].delta))
  {
    var bs := Bids(sc, w, point).value;
    if |bs| > 0 {
      SortByHeadIsFirstLeast(bs, Key);
      var i := FirstLeast(bs, Key);
      assert forall j :: 0 <= j < |bs| ==> Key(bs[i]) <= Key(bs[j]);
    }
  }

  /** A bid's path runs from the point to another point. */
  predicate Candidates(point: int, bs: seq<Bid>)
  {
    forall b :: b in bs ==> Candidate(point, Some(b.path))
  }

  /** Every bid of a scan offers a path from the point's table. */
  lemma {:induction false} ScanBidsAreCandidates(sc: Scores, w: World, point: int, index: int, emptyTake: bool)
    requires Neighbours(w) && point in w && index >= -1
    ensures ScanBids(sc, w, point, index, emptyTake).Ok? ==> Candidates(point, ScanBids(sc, w, point, index, emptyTake).value.0)
    decreases |w[point].sortIndex| - index
  {
    if ScanBids(sc, w, point, index, emptyTake).Ok? && index < |w[point].paths| {
      NextIsFirstFree(w[point], index);
      if NextSpec(w[point], index).Some? {
        var ip := NextSpec(w[point], index).value;
        LookupIsCandidate(w, point, w[point].sortIndex[ip.index]);
        var c := ReserveBids(sc, w, point, ip, emptyTake).value;
        ScanBidsAreCandidates(sc, w, point, ip.index, emptyTake || c.1);
      }
    }
  }

  /** Every bid of an allocation offers a path from the point's table. */
  lemma BidsAreCandidates(sc: Scores, w: World, point: int)
    requires Neighbours(w) && point in w
    ensures Bids(sc, w, point).Ok? ==> Candidates(point, Bids(sc, w, point).value)
  {
    if Bids(sc, w, point).Ok? {
      if w[point].s0.None? {
        ScanBidsAreCandidates(sc, w, point, -1, false);
      }
      var c0 := if w[point].s0.None? then ScanBids(sc, w, point, -1, false).value else ([], false);
      if w[point].s1.None? {
        ScanBidsAreCandidates(sc, w, point, -1, c0.1);
      }
    }
  }

  /** Applying a bid for a candidate path keeps a linked world linked and holds the path at both ends. */
  lemma ApplyKeepsLinked(w: World, point: int, b: Bid)
    requires Linked(w) && point in w && Candidate(point, Some(b.path))
    ensures Apply(w, point, b).Ok? ==> Linked(Apply(w, point, b).value) && SameTables(w, Apply(w, point, b).value)
    ensures Apply(w, point, b).Ok? ==>
      InSlot(Apply(w, point, b).value[point], b.path) && InSlot(Apply(w, point, b).value[Far(b.path.edge, point)], b.path)
  {
    SameTablesChain(w, w, w);
    if Apply(w, point, b).Ok? {
      if b.incumbent.None? {
        JoinKeepsLinked(w, point, b.path);
      } else {
        var t := V2Path.Target(b.path, point).value;
        var p2 := V2Path.Target(b.incumbent.value, t).value;
        DetachKeepsLinked(w, t, p2);
        var w1 := Detach(w, t, p2).value;
        JoinKeepsLinked(w1, point, b.path);
        SameTablesChain(w, w1, Apply(w, point, b).value);
      }
    }
  }

  /** `allocate` keeps a linked world with well-formed tables linked. */
  lemma AllocateKeepsLinked(sc: Scores, w: World, point: int)
    requires Linked(w) && Neighbours(w) && point in w
    ensures Allocate(sc, w, point).Ok? ==>
      Linked(Allocate(sc, w, point).value) && SameTables(w, Allocate(sc, w, point).value)
  {
    SameTablesChain(w, w, w);
    if Allocate(sc, w, point).Ok? {
      var bs := Bids(sc, w, point).value;
      if |bs| > 0 {
        BidsAreCandidates(sc, w, point);
        var b := SortBy(bs, Key)[0];
        assert b in multiset(bs);
        ApplyKeepsLinked(w, point, b);
      }
    }
  }

  /** `allocate` as the pass hands it a point. */
  function Allocator(sc: Scores): (World, int) -> Result<World>
  {
    (w: World, s: int) => if s in w then Allocate(sc, w, s) else Fail(NullPointer)
  }

  /** `run`: every listed point not linked on both slots is allocated; the first exception ends the pass. */
  function Run(sc: Scores, w: World, order: seq<int>): (r: Result<World>)
    ensures (forall i :: 0 <= i < |order| ==> Full(w, order[i])) ==> r == Ok(w)
  {
    Pass(Allocator(sc), w, order)
  }

  /** A pass over a linked world with well-formed tables leaves it linked. */
  lemma RunKeepsLinked(sc: Scores, w: World, order: seq<int>)
    requires Linked(w) && Neighbours(w)
    ensures Run(sc, w, order).Ok? ==> Linked(Run(sc, w, order).value)
  {
    forall w1: World, s: int | Linked(w1) && Neighbours(w1) && s in w1 && Allocator(sc)(w1, s).Ok?
      ensures Linked(Allocator(sc)(w1, s).value) && SameTables(w1, Allocator(sc)(w1, s).value)
    {
      AllocateKeepsLinked(sc, w1, s);
    }
    PassKeepsLinked(Allocator(sc), w, order);
  }
}
