/**
 * `lazyman.v2.model.Route`: a run of points seen as one unit with two link
 * slots of its own.  `connect` looks, along every consecutive pair of the
 * run, for a way to leave the run at both points towards two different
 * outside points, and installs the cheapest such pair of paths.
 */
module V2Route {
  import opened Common
  import opened Order
  import opened Edges
  import opened V2Path
  import opened V2Point
  import opened V2World

  /**
   * A bid: leave the run at `p1` by `path1` and at `p2` by `path2`; `delta`
   * is what the two paths cost over the path between `p1` and `p2`.
   */
  datatype Bid = Bid(p1: int, path1: Path, p2: int, path2: Path, delta: real)

  /** The run's points in order, their set, the two slots and the bid installed last. */
  datatype Route = Route(points: seq<int>, members: set<int>, c0: Option<Path>, c1: Option<Path>, bid: Option<Bid>)

  /** `Bid.compareTo`: the coarse step of `delta - o.delta`. */
  function CompareTo(b: Bid, o: Bid): int
  {
    Coarse(b.delta - o.delta)
  }

  /** The sort key the comparator induces: a smaller delta sorts first. */
  function Key(b: Bid): real
  {
    b.delta
  }

  /** `compareTo` orders bids by ascending delta. */
  lemma CompareToIsAscendingDelta(b: Bid, o: Bid)
    ensures Sgn(CompareTo(b, o)) == SgnR(Key(b) - Key(o))
    ensures CompareTo(b, o) < 0 <==> b.delta < o.delta
    ensures Sgn(CompareTo(b, o)) == -Sgn(CompareTo(o, b))
  {
  }

  /** The constructor: the run's points, indexed by sequence, with both slots empty. */
  function New(points: seq<int>): (r: Route)
    ensures r.points == points && r.c0.None? && r.c1.None? && r.bid.None?
    ensures forall x :: x in r.members <==> x in points
  {
    Route(points, (set x | x in points), None, None, None)
  }

  /** `hasPoint`: the point is one of the run's. */
  predicate HasPoint(r: Route, point: int)
  {
    point in r.members
  }

  /** `hasConnection`: a slot holds a path equal to `path`. */
  predicate HasConnection(r: Route, path: Path)
  {
    (r.c0.Some? && Same(r.c0.value, path)) || (r.c1.Some? && Same(r.c1.value, path))
  }

  /** `isConnected`: both slots are set. */
  predicate IsConnected(r: Route)
  {
    r.c0.Some? && r.c1.Some?
  }

  /** `p` leaves the run at `point` towards an outside point other than `used`. */
  predicate Leaves(r: Route, point: int, p: Path, used: Option<int>)
  {
    Edges.HasPoint(p.edge, point) && Far(p.edge, point) !in r.members && used != Some(Far(p.edge, point))
  }

  /**
   * The path at position `k` of the point's sorted neighbours is the first
   * from position `ii` on that leaves the run.
   */
  ghost predicate FirstLeaving(w: World, r: Route, point: int, used: Option<int>, ii: nat, k: nat, p: Path)
    requires point in w
  {
    var si := w[point].sortIndex;
    ii <= k < |si| && si[k] in w[point].paths && w[point].paths[si[k]] == p && Leaves(r, point, p, used)
    && forall j :: ii <= j < k ==> si[j] in w[point].paths && !Leaves(r, point, w[point].paths[si[j]], used)
  }

  /**
   * `forPoint(point, 0, used)`: the first path of the point's sorted
   * neighbours that leaves the run, avoiding `used`; none when there is no
   * such path.  A neighbour without a table entry, or a path that does not
   * touch the point, throws.
   */
  function ForPoint(w: World, r: Route, point: int, used: Option<int>): (o: Result<Option<Path>>)
    requires point in w
    ensures o.Ok? && o.value.Some? ==> Leaves(r, point, o.value.value, used) && o.value.value in w[point].paths.Values
    ensures o.Ok? && o.value.None? ==> forall k :: 0 <= k < |w[point].sortIndex| ==>
      w[point].sortIndex[k] in w[point].paths && !Leaves(r, point, w[point].paths[w[point].sortIndex[k]], used)
    ensures o.Ok? && o.value.Some? ==> exists k :: FirstLeaving(w, r, point, used, 0, k, o.value.value)
    ensures o.Fail? ==> o.error == NullPointer || o.error == IllegalState
  {
    ForFrom(w, r, point, used, 0)
  }

  /** The scan of `forPoint` from position `ii` of the sorted neighbours. */
  function ForFrom(w: World, r: Route, point: int, used: Option<int>, ii: nat): (o: Result<Option<Path>>)
    requires point in w
    ensures o.Ok? && o.value.Some? ==> Leaves(r, point, o.value.value, used) && o.value.value in w[point].paths.Values
    ensures o.Ok? && o.value.None? ==> forall k :: ii <= k < |w[point].sortIndex| ==>
      w[point].sortIndex[k] in w[point].paths && !Leaves(r, point, w[point].paths[w[point].sortIndex[k]], used)
    ensures o.Ok? && o.value.Some? ==> exists k :: FirstLeaving(w, r, point, used, ii, k, o.value.value)
    ensures o.Fail? ==> o.error == NullPointer || o.error == IllegalState
    decreases |w[point].sortIndex| - ii
  {
    var si := w[point].sortIndex;
    if ii >= |si| then Ok(None)
    else
      match Lookup(w[point], si[ii])
      case None => Fail(NullPointer)
      case Some(p) =>
        match V2Path.Target(p, point)
        case Fail(e) => Fail(e)
        case Ok(t) =>
          if t !in r.members && (used.None? || used.value != t) then
            assert FirstLeaving(w, r, point, used, ii, ii, p);
            Ok(Some(p))
          else
            var o := ForFrom(w, r, point, used, ii + 1);
            FirstLeavingBack(w, r, point, used, ii, ii + 1, o);
            o
  }

  /** A first leaving path from `ii + 1` on is the first from `ii` on when `ii` does not leave. */
  lemma FirstLeavingBack(w: World, r: Route, point: int, used: Option<int>, ii: nat, jj: nat, o: Result<Option<Path>>)
    requires point in w && ii < |w[point].sortIndex| && jj == ii + 1
    requires w[point].sortIndex[ii] in w[point].paths
    requires !Leaves(r, point, w[point].paths[w[point].sortIndex[ii]], used)
    requires o.Ok? && o.value.Some? ==> exists k :: FirstLeaving(w, r, point, used, jj, k, o.value.value)
    ensures o.Ok? && o.value.Some? ==> exists k :: FirstLeaving(w, r, point, used, ii, k, o.value.value)
  {
    if o.Ok? && o.value.Some? {
      var k :| FirstLeaving(w, r, point, used, jj, k, o.value.value);
      assert FirstLeaving(w, r, point, used, ii, k, o.value.value);
    }
  }

  /** On tables the cache built, `forPoint` never throws. */
  lemma {:induction false} ForFromTotal(w: World, r: Route, point: int, used: Option<int>, ii: nat)
    requires Neighbours(w) && point in w
    requires forall k :: 0 <= k < |w[point].sortIndex| ==> w[point].sortIndex[k] in w[point].paths
    ensures ForFrom(w, r, point, used, ii).Ok?
    decreases |w[point].sortIndex| - ii
  {
    var si := w[point].sortIndex;
    if ii < |si| {
      var k := si[ii];
      assert k in w[point].paths;
      assert k in w && k != point && Edges.HasPoint(w[point].paths[k].edge, point);
      ForFromTotal(w, r, point, used, ii + 1);
    }
  }

  /** A bid leaves the run at its two points towards two different outside points. */
  predicate ValidBid(w: World, r: Route, b: Bid)
  {
    b.p1 in w && b.p2 in w[b.p1].paths &&
    Leaves(r, b.p1, b.path1, None) && Leaves(r, b.p2, b.path2, Some(Far(b.path1.edge, b.p1))) &&
    b.delta == b.path1.actualLength + b.path2.actualLength - w[b.p1].paths[b.p2].actualLength
  }

  /**
   * `check(p1, p2)`: a bid from the first path leaving the run at `p1` and
   * the first leaving at `p2` towards another point; none when either is
   * missing.  The path between `p1` and `p2` must be in `p1`'s table.
   */
  function Check(w: World, r: Route, p1: int, p2: int): (o: Result<Option<Bid>>)
    requires p1 in w && p2 in w
    ensures o.Ok? && o.value.Some? ==> ValidBid(w, r, o.value.value) && o.value.value.p1 == p1 && o.value.value.p2 == p2
    ensures o.Ok? && o.value.None? ==>
      (ForPoint(w, r, p1, None) == Ok(None) ||
       (ForPoint(w, r, p1, None).Ok? && ForPoint(w, r, p1, None).value.Some? &&
        ForPoint(w, r, p2, Some(Far(ForPoint(w, r, p1, None).value.value.edge, p1))) == Ok(None)))
    ensures o.Fail? ==> o.error == NullPointer || o.error == IllegalState
  {
    match ForPoint(w, r, p1, None)
    case Fail(e) => Fail(e)
    case Ok(None) => Ok(None)
    case Ok(Some(path1)) =>
      var t1 := Far(path1.edge, p1);
      match ForPoint(w, r, p2, Some(t1))
      case Fail(e) => Fail(e)
      case Ok(None) => Ok(None)
      case Ok(Some(path2)) =>
        match Lookup(w[p1], p2)
        case None => Fail(NullPointer)
        case Some(cp) => Ok(Some(Bid(p1, path1, p2, path2, (path1.actualLength + path2.actualLength) - cp.actualLength)))
  }

  /** A check's bid, as a sequence of at most one. */
  function AsSeq(o: Option<Bid>): seq<Bid>
  {
    if o.Some? then [o.value] else []
  }

  /** The bids of `connect`'s loop from position `index`: both directions of each consecutive pair. */
  function PairBids(w: World, r: Route, index: nat): (o: Result<seq<Bid>>)
    requires forall x :: x in r.points ==> x in w
    ensures o.Ok? ==> forall b :: b in o.value ==> ValidBid(w, r, b)
    ensures o.Fail? ==> o.error == NullPointer || o.error == IllegalState
    decreases |r.points| - index
  {
    if index + 1 >= |r.points| then Ok([])
    else
      var cur, next := r.points[index], r.points[index + 1];
      match Check(w, r, cur, next)
      case Fail(e) => Fail(e)
      case Ok(b1) =>
        match Check(w, r, next, cur)
        case Fail(e) => Fail(e)
        case Ok(b2) =>
          match PairBids(w, r, index + 1)
          case Fail(e) => Fail(e)
          case Ok(rest) => Ok(AsSeq(b1) + AsSeq(b2) + rest)
  }

  /**
   * `connect`: the bid with the least delta, the earliest among equals,
   * fills both slots; with no bid nothing changes.  An empty run has no
   * first point.
   */
  function Connect(w: World, r: Route): (o: Result<Route>)
    requires forall x :: x in r.points ==> x in w
    ensures |r.points| == 0 <==> o == Fail(IndexOutOfBounds)
    ensures o.Ok? ==> o.value.points == r.points && o.value.members == r.members
  {
    if |r.points| == 0 then Fail(IndexOutOfBounds)
    else
      match PairBids(w, r, 0)
      case Fail(e) => Fail(e)
      case Ok(bs) =>
        if |bs| == 0 then Ok(r)
        else
          var b := SortBy(bs, Key)[0];
          Ok(r.(c0 := Some(b.path1), c1 := Some(b.path2), bid := Some(b)))
  }

  /**
   * `connect` has installed bid `i` of `bs` into both slots: a valid bid
   * with the least delta of all, and strictly less than every earlier one.
   */
  ghost predicate InstallsBid(w: World, r: Route, bs: seq<Bid>, i: int)
    requires forall x :: x in r.points ==> x in w
  {
    0 <= i < |bs| &&
    Connect(w, r) == Ok(r.(c0 := Some(bs[i].path1), c1 := Some(bs[i].path2), bid := Some(bs[i]))) &&
    ValidBid(w, r, bs[i]) &&
    (forall j :: 0 <= j < |bs| ==> bs[i].delta <= bs[j].delta) &&
    (forall j :: 0 <= j < i ==> bs[j].delta > bs[i].delta)
  }

  /**
   * `connect` installs a bid of the run with the least delta, the earliest
   * among equals, into both slots; with no bid the route is unchanged.
   */
  lemma ConnectInstallsBestBid(w: World, r: Route)
    requires forall x :: x in r.points ==> x in w
    requires |r.points| > 0 && PairBids(w, r, 0).Ok?
    ensures var bs := PairBids(w, r, 0).value;
      if |bs| == 0 then Connect(w, r) == Ok(r)
      else exists i :: InstallsBid(w, r, bs, i)
  {
    var bs := PairBids(w, r, 0).value;
    if |bs| > 0 {
      var i := FirstLeast(bs, Key);
      LeastDelta(bs);
      assert ValidBid(w, r, bs[i]) by { assert bs[i] in bs; }
      assert InstallsBid(w, r, bs, i);
    }
  }

  /** The head of the bids sorted by delta is the first bid of least delta. */
  lemma LeastDelta(bs: seq<Bid>)
    requires |bs| > 0
    ensures var i := FirstLeast(bs, Key);
      SortBy(bs, Key)[0] == bs[i] &&
      (forall j :: 0 <= j < |bs| ==> bs[i].delta <= bs[j].delta) &&
      (forall j :: 0 <= j < i ==> bs[j].delta > bs[i].delta)
  {
    SortByHeadIsFirstLeast(bs, Key);
    var i := FirstLeast(bs, Key);
    assert forall j :: 0 <= j < |bs| ==> Key(bs[i]) <= Key(bs[j]);
    assert forall j :: 0 <= j < i ==> Key(bs[j]) > Key(bs[i]);
  }

  /**
   * `removeConnection`: empties the first slot holding a path equal to
   * `path`; a path in neither slot throws.
   */
  function RemoveConnection(r: Route, path: Path): (o: Result<Route>)
    ensures o.Ok? <==> HasConnection(r, path)
    ensures o.Fail? ==> o.error == IllegalState
    ensures o.Ok? ==> o.value.points == r.points && o.value.members == r.members && o.value.bid == r.bid
    ensures o.Ok? ==> (o.value.c0.None? && o.value.c1 == r.c1) || (o.value.c0 == r.c0 && o.value.c1.None?)
  {
    if r.c0.Some? && Same(r.c0.value, path) then Ok(r.(c0 := None))
    else if r.c1.Some? && Same(r.c1.value, path) then Ok(r.(c1 := None))
    else Fail(IllegalState)
  }

  /**
   * `connectTo` as written: an empty first slot takes the path; otherwise
   * the path overwrites the second slot when that slot is already set, and
   * an empty second slot throws.
   */
  function ConnectToAsWritten(r: Route, path: Path): (o: Result<Route>)
    ensures o.Ok? <==> r.c0.None? || r.c1.Some?
  {
    if r.c0.None? then Ok(r.(c0 := Some(path)))
    else if r.c1.Some? then Ok(r.(c1 := Some(path)))
    else Fail(IllegalState)
  }

  /**
   * With the first slot set and the second free, the written `connectTo`
   * throws though a slot is free; with both set it drops the second link.
   */
  lemma ConnectToAsWrittenInverted(r: Route, path: Path)
    ensures r.c0.Some? && r.c1.None? ==> ConnectToAsWritten(r, path) == Fail(IllegalState) && !IsConnected(r)
    ensures IsConnected(r) ==>
      ConnectToAsWritten(r, path).Ok? && ConnectToAsWritten(r, path).value.c1 == Some(path)
  {
  }

  /** `connectTo` as its message intends: the first empty slot takes the path, and no empty slot throws. */
  function ConnectTo(r: Route, path: Path): (o: Result<Route>)
    ensures o.Ok? <==> !IsConnected(r)
    ensures o.Fail? ==> o.error == IllegalState
    ensures o.Ok? ==> HasConnection(o.value, path)
    ensures o.Ok? ==> (r.c0.Some? ==> o.value.c0 == r.c0) && (r.c1.Some? ==> o.value.c1 == r.c1)
    ensures o.Ok? ==> o.value.points == r.points && o.value.members == r.members && o.value.bid == r.bid
  {
    if r.c0.None? then Ok(r.(c0 := Some(path)))
    else if r.c1.None? then Ok(r.(c1 := Some(path)))
    else Fail(IllegalState)
  }

  /** Linking a new path and removing it again gives back the route. */
  lemma ConnectToThenRemove(r: Route, path: Path)
    requires !IsConnected(r) && !HasConnection(r, path)
    ensures ConnectTo(r, path).Ok?
    ensures RemoveConnection(ConnectTo(r, path).value, path) == Ok(r)
  {

  }
}
