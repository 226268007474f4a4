/**
 * `lazyman.v2.Cache`: the point registry (the key a point is filed under is
 * fixed by its sequence number, since a new point prints with elevation and
 * chain length 0), the position index, the neighbour paths stored on the
 * points, the rotated views of the point list, and the size x size bid table.
 */
module V2Cache {
  import opened Common
  import opened Edges
  import opened V2Path
  import opened V2Point

  /** `PointBid`: the column's sequence, the bidding point (or null) and the bid. */
  datatype PointBid = PointBid(sequence: int, point: Option<int>, bid: real)

  datatype Cache = Cache(points: map<int, Point>, index: seq<Option<int>>, bids: seq<seq<PointBid>>)

  /** 2 to the power `n`. */
  function Pow2(n: nat): (r: nat)
    ensures r >= 1
  {
    if n == 0 then 1 else 2 * Pow2(n - 1)
  }

  /** Java's `Double.MIN_VALUE`: the smallest positive double, 2^-1074. */
  const DOUBLE_MIN_VALUE: real := 1.0 / (Pow2(1074) as real)

  /** The bid row of a point: one cell per column, each with its own sequence. */
  function BidRow(size: nat, jj: nat): (r: seq<PointBid>)
    requires jj <= size
    ensures |r| == size - jj
    ensures forall k :: 0 <= k < |r| ==> r[k] == PointBid(jj + k, None, DOUBLE_MIN_VALUE)
    decreases size - jj
  {
    if jj == size then [] else [PointBid(jj, None, DOUBLE_MIN_VALUE)] + BidRow(size, jj + 1)
  }

  /**
   * `init`: a positive size, `size` empty index entries and a size x size
   * bid table whose cell [i][j] is column j, unset.
   */
  function Init(size: int): (r: Result<Cache>)
    ensures r.Fail? <==> size <= 0
    ensures r.Fail? ==> r.error == IllegalArgument
    ensures r.Ok? ==> |r.value.index| == size && |r.value.bids| == size && r.value.points == map[]
    ensures r.Ok? ==> forall i :: 0 <= i < size ==> r.value.index[i].None?
    ensures r.Ok? ==> forall i, j :: 0 <= i < size && 0 <= j < size ==>
      |r.value.bids[i]| == size && r.value.bids[i][j] == PointBid(j, None, DOUBLE_MIN_VALUE)
  {
    if size <= 0 then Fail(IllegalArgument)
    else Ok(Cache(map[], seq(size, _ => None), seq(size, _ => BidRow(size, 0))))
  }

  /** `setBid`: writes the bidding point and the value into cell [point][target]. */
  function SetBid(c: Cache, point: int, target: int, value: real): (r: Result<Cache>)
    ensures r.Ok? <==> 0 <= point < |c.bids| && 0 <= target < |c.bids[point]|
    ensures r.Fail? ==> r.error == IndexOutOfBounds
    ensures r.Ok? ==> r.value.points == c.points && r.value.index == c.index
  {
    if point < 0 || point >= |c.bids| || target < 0 || target >= |c.bids[point]| then Fail(IndexOutOfBounds)
    else
      var row := c.bids[point];
      Ok(c.(bids := c.bids[point := row[target := row[target].(point := Some(target), bid := value)]]))
  }

  /** `getBid`: cell [point][target] of the table. */
  function GetBid(c: Cache, point: int, target: int): (r: Result<PointBid>)
    ensures r.Ok? <==> 0 <= point < |c.bids| && 0 <= target < |c.bids[point]|
    ensures r.Ok? ==> r.value in c.bids[point]
  {
    if point < 0 || point >= |c.bids| || target < 0 || target >= |c.bids[point]| then Fail(IndexOutOfBounds)
    else Ok(c.bids[point][target])
  }

  /**
   * A stored bid is read back with its value and target, and every other cell
   * of the table is left as it was.
   */
  lemma SetThenGetBid(c: Cache, point: int, target: int, value: real, p: int, t: int)
    requires SetBid(c, point, target, value).Ok?
    ensures var c2 := SetBid(c, point, target, value).value;
      GetBid(c2, point, target).Ok? &&
      GetBid(c2, point, target).value.point == Some(target) &&
      GetBid(c2, point, target).value.bid == value &&
      GetBid(c2, point, target).value.sequence == c.bids[point][target].sequence &&
      ((p, t) != (point, target) ==> GetBid(c2, p, t) == GetBid(c, p, t))
  {
  }

  /**
   * `add(sequence, X, Y)`: builds the point (a negative sequence is refused),
   * refuses a point already loaded, and records its key at `index[sequence]`.
   */
  function AddPoint(c: Cache, sequence: int): (r: Result<Cache>)
    ensures r.Ok? <==> 0 <= sequence < |c.index| && sequence !in c.points
    ensures sequence < 0 ==> r == Fail(IllegalArgument)
    ensures sequence >= 0 && sequence in c.points ==> r == Fail(IllegalState)
    ensures r.Ok? ==> r.value.points.Keys == c.points.Keys + {sequence} &&
                      r.value.index == c.index[sequence := Some(sequence)] &&
                      r.value.points[sequence] == New(sequence).value &&
                      (forall s :: s in c.points ==> r.value.points[s] == c.points[s])
  {
    match New(sequence)
    case Fail(e) => Fail(e)
    case Ok(pt) =>
      if sequence in c.points then Fail(IllegalState)
      else if sequence >= |c.index| then Fail(IndexOutOfBounds)
      else Ok(c.(points := c.points[sequence := pt], index := c.index[sequence := Some(sequence)]))
  }

  /** `get(index)`: the point filed at a position, or null; a position out of range is refused. */
  function Get(c: Cache, i: int): (r: Result<Option<Point>>)
    ensures r.Ok? <==> 0 <= i < |c.index|
    ensures r.Fail? ==> r.error == IllegalArgument
    ensures r.Ok? && r.value.Some? ==> c.index[i].Some? && c.index[i].value in c.points &&
                                       r.value.value == c.points[c.index[i].value]
  {
    if i < 0 || i >= |c.index| then Fail(IllegalArgument)
    else if c.index[i].Some? && c.index[i].value in c.points then Ok(Some(c.points[c.index[i].value]))
    else Ok(None)
  }

  /**
   * `add(seq1, seq2, distance)`: a path between two loaded points with the
   * given measured length, filed on each endpoint that has no path to the
   * other yet.
   */
  function AddPath(c: Cache, seq1: int, seq2: int, distance: real): (r: Result<(Cache, Path)>)
    ensures r.Ok? ==> Get(c, seq1).Ok? && Get(c, seq1).value.Some? && Get(c, seq2).Ok? && Get(c, seq2).value.Some?
    ensures r.Ok? ==> r.value.1 == Path(Edge(Get(c, seq1).value.value.sequence, Get(c, seq2).value.value.sequence),
                                        0.0, distance)
    ensures r.Ok? ==> r.value.0.index == c.index && r.value.0.bids == c.bids
  {
    match Get(c, seq1)
    case Fail(e) => Fail(e)
    case Ok(o1) =>
      if o1.None? then Fail(NullPointer)
      else match Get(c, seq2)
        case Fail(e) => Fail(e)
        case Ok(o2) =>
          if o2.None? then Fail(NullPointer)
          else
            var p1, p2 := o1.value, o2.value;
            var path := Path(Edge(p1.sequence, p2.sequence), 0.0, distance);
            var q1 := if p2.sequence in p1.paths then Ok(p1) else V2Point.Add(p1, path);
            var c1 := if q1.Ok? then c.(points := c.points[p1.sequence := q1.value]) else c;
            // the second endpoint is re-read: it is the same object when seq1 == seq2
            var p2n := if p2.sequence == p1.sequence && q1.Ok? then q1.value else p2;
            var q2 := if p1.sequence in p2n.paths then Ok(p2n) else V2Point.Add(p2n, path);
            if q1.Fail? then Fail(q1.error)
            else if q2.Fail? then Fail(q2.error)
            else Ok((c1.(points := c1.points[p2.sequence := q2.value]), path))
  }

  /**
   * Registering a path between two distinct loaded points files it at both
   * endpoints (under the other's sequence) unless one was filed already.
   */
  lemma AddPathFilesBothEnds(c: Cache, seq1: int, seq2: int, distance: real)
    requires forall s :: s in c.points ==> c.points[s].sequence == s
    requires 0 <= seq1 < |c.index| && 0 <= seq2 < |c.index| && seq1 != seq2
    requires c.index[seq1] == Some(seq1) && c.index[seq2] == Some(seq2)
    requires seq1 in c.points && seq2 in c.points
    ensures AddPath(c, seq1, seq2, distance).Ok?
    ensures var c2 := AddPath(c, seq1, seq2, distance).value.0;
      var path := Path(Edge(seq1, seq2), 0.0, distance);
      seq1 in c2.points && seq2 in c2.points &&
      seq2 in c2.points[seq1].paths && seq1 in c2.points[seq2].paths &&
      (seq2 !in c.points[seq1].paths ==> c2.points[seq1].paths[seq2] == path) &&
      (seq1 !in c.points[seq2].paths ==> c2.points[seq2].paths[seq1] == path) &&
      (seq2 in c.points[seq1].paths ==> c2.points[seq1] == c.points[seq1]) &&
      (seq1 in c.points[seq2].paths ==> c2.points[seq2] == c.points[seq2])
  {
  }

  /** `get(seq1, seq2)`: the path the first point files under the second's sequence. */
  function GetPath(c: Cache, seq1: int, seq2: int): (r: Result<Option<Path>>)
    ensures r.Ok? ==> Get(c, seq1).Ok? && Get(c, seq1).value.Some? &&
                      r.value == Lookup(Get(c, seq1).value.value, seq2)
  {
    match Get(c, seq1)
    case Fail(e) => Fail(e)
    case Ok(o) => if o.None? then Fail(NullPointer) else Ok(Lookup(o.value, seq2))
  }

  /** The position read for element `ii` of a list rotated by `start`. */
  function Rotated(n: int, start: int, ii: int): int
  {
    if ii + start >= n then ii + start - n else ii + start
  }

  /** For a start inside the list, the rotation is `(ii + start) mod n`. */
  lemma RotatedIsModular(n: int, start: int, ii: int)
    requires 0 <= start < n && 0 <= ii < n
    ensures Rotated(n, start, ii) == (ii + start) % n
    ensures 0 <= Rotated(n, start, ii) < n
  {
  }

  /** The element of the rotated list that reads position `k`. */
  function Unrotated(n: int, start: int, k: int): int
  {
    if k >= start then k - start else k - start + n
  }

  /**
   * The rotation visits every position exactly once: it is a permutation of
   * the list positions, whose inverse is `Unrotated`.
   */
  lemma RotatedIsPermutation(n: int, start: int)
    requires 0 <= start < n
    ensures forall i, j :: 0 <= i < n && 0 <= j < n && Rotated(n, start, i) == Rotated(n, start, j) ==> i == j
    ensures forall k :: 0 <= k < n ==>
      0 <= Unrotated(n, start, k) < n && Rotated(n, start, Unrotated(n, start, k)) == k
    ensures forall k :: 0 <= k < n ==> Unrotated(n, start, k) == (k - start) % n
  {
  }

  /** The loop of `pointList`/`copyPoints`: the keys read, in order, as positions. */
  function Positions(n: int, start: int, ii: nat): (r: Result<seq<int>>)
    requires ii <= n || n < 0
    ensures r.Ok? ==> |r.value| == (if n < 0 then 0 else n - ii)
    ensures r.Ok? ==> forall k :: 0 <= k < |r.value| ==> r.value[k] == Rotated(n, start, ii + k) && 0 <= r.value[k] < n
    ensures r.Fail? ==> r.error == IndexOutOfBounds
    decreases if n < 0 then 0 else n - ii
  {
    if n < 0 || ii == n then Ok([])
    else
      var indx := Rotated(n, start, ii);
      if indx < 0 || indx >= n then Fail(IndexOutOfBounds)
      else match Positions(n, start, ii + 1)
        case Fail(e) => Fail(e)
        case Ok(rest) => Ok([indx] + rest)
  }

  /** The point a position's key names, or null. */
  function At(c: Cache, pos: int): Option<Point>
    requires 0 <= pos < |c.index|
  {
    if c.index[pos].Some? && c.index[pos].value in c.points then Some(c.points[c.index[pos].value]) else None
  }

  /**
   * `pointList(start)`: the registered points read from position `start`
   * round to the position before it; a start outside the list reads out of
   * range.
   */
  function PointList(c: Cache, start: int): (r: Result<seq<Option<Point>>>)
    ensures 0 <= start < |c.index| ==> r.Ok?
    ensures r.Ok? ==> |r.value| == |c.index|
    ensures r.Ok? ==> forall i :: 0 <= i < |c.index| ==>
      0 <= Rotated(|c.index|, start, i) < |c.index| && r.value[i] == At(c, Rotated(|c.index|, start, i))
  {
    if 0 <= start < |c.index| then PositionsInRange(|c.index|, start, 0); ListAt(c, start)
    else ListAt(c, start)
  }

  /** The points at the positions the rotation reads. */
  function ListAt(c: Cache, start: int): (r: Result<seq<Option<Point>>>)
    ensures r.Ok? <==> Positions(|c.index|, start, 0).Ok?
    ensures r.Ok? ==> |r.value| == |c.index|
    ensures r.Ok? ==> forall i :: 0 <= i < |c.index| ==>
      0 <= Rotated(|c.index|, start, i) < |c.index| && r.value[i] == At(c, Rotated(|c.index|, start, i))
  {
    match Positions(|c.index|, start, 0)
    case Fail(e) => Fail(e)
    case Ok(ps) =>
      RotatedPositions(|c.index|, start, ps);
      Ok(Ats(c, ps))
  }

  /** The points at the given positions, in order. */
  function Ats(c: Cache, ps: seq<int>): (r: seq<Option<Point>>)
    requires forall i :: 0 <= i < |ps| ==> 0 <= ps[i] < |c.index|
    ensures |r| == |ps| && forall i :: 0 <= i < |ps| ==> r[i] == At(c, ps[i])
  {
    if |ps| == 0 then [] else [At(c, ps[0])] + Ats(c, ps[1..])
  }

  /** The positions read from the start are the rotated ones, all in range. */
  lemma RotatedPositions(n: int, start: int, ps: seq<int>)
    requires Positions(n, start, 0) == Ok(ps)
    ensures |ps| == (if n < 0 then 0 else n)
    ensures forall i :: 0 <= i < |ps| ==> ps[i] == Rotated(n, start, i) && 0 <= ps[i] < n
  {
    forall i | 0 <= i < |ps|
      ensures ps[i] == Rotated(n, start, i) && 0 <= ps[i] < n
    {
      assert ps[i] == Rotated(n, start, 0 + i);
    }
  }

  /** A start inside the list never reads out of range. */
  lemma PositionsInRange(n: int, start: int, ii: nat)
    requires 0 <= start < n && ii <= n
    ensures Positions(n, start, ii).Ok?
    decreases n - ii
  {
    if ii < n {
      PositionsInRange(n, start, ii + 1);
    }
  }

  /**
   * `copyPoints(start)`: as `pointList`, but each element is a fresh copy of
   * the registered point (its connect counter restarts at 0); a missing
   * point is a null dereference.
   */
  function CopyPoints(c: Cache, start: int): (r: Result<seq<Point>>)
    ensures r.Ok? ==> PointList(c, start).Ok? && |r.value| == |PointList(c, start).value|
    ensures r.Ok? ==> forall i :: 0 <= i < |r.value| ==>
      PointList(c, start).value[i].Some? && r.value[i] == Copy(PointList(c, start).value[i].value)
    ensures PointList(c, start).Ok? ==>
      (r.Ok? <==> forall i :: 0 <= i < |PointList(c, start).value| ==> PointList(c, start).value[i].Some?)
  {
    match PointList(c, start)
    case Fail(e) => Fail(e)
    case Ok(pl) =>
      if exists i :: 0 <= i < |pl| && pl[i].None? then Fail(NullPointer)
      else Ok(seq(|pl|, i requires 0 <= i < |pl| => Copy(pl[i].value)))
  }

  /**
   * For a start inside the list, `pointList` is total, lists every position
   * exactly once, and the copy list matches it point for point.
   */
  lemma PointListIsRotation(c: Cache, start: int)
    requires 0 <= start < |c.index|
    ensures PointList(c, start).Ok?
    ensures forall k :: 0 <= k < |c.index| ==> PointList(c, start).value[Unrotated(|c.index|, start, k)] == At(c, k)
  {
    RotatedIsPermutation(|c.index|, start);
  }
}
