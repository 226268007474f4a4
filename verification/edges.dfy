/**
 * The identity of an edge between two points, shared by every `Path` class of
 * the code base: endpoint lookup, endpoint-order-free equality and the
 * canonical "min->max" key.  A point is its integer sequence number; its
 * coordinates are a function of that number, so `Point.equals` on
 * (sequence, X, Y) is equality of sequence numbers.
 */
module Edges {
  import opened Common

  /** An edge between point A and point B, in the order it was built. */
  datatype Edge = Edge(a: int, b: int)

  /** The same edge with its endpoints swapped. */
  function Reverse(e: Edge): Edge
  {
    Edge(e.b, e.a)
  }

  /** `hasPoint`: the point is one of the two endpoints. */
  predicate HasPoint(e: Edge, p: int)
  {
    e.a == p || e.b == p
  }

  /**
   * `getTarget`: the endpoint opposite `source`, or null when `source` is not
   * an endpoint.
   */
  function Target(e: Edge, source: int): (r: Option<int>)
    ensures r.Some? <==> HasPoint(e, source)
    ensures r.Some? ==> multiset{source, r.value} == multiset{e.a, e.b}
  {
    if e.a == source then Some(e.b)
    else if e.b == source then Some(e.a)
    else None
  }

  /** `equals`: the same two endpoints, in either order. */
  predicate SameEdge(e: Edge, f: Edge)
  {
    (e.a == f.a && e.b == f.b) || (e.a == f.b && e.b == f.a)
  }

  /** Edge equality is exactly equality of the endpoint multisets. */
  lemma SameEdgeIsEndpointMultiset(e: Edge, f: Edge)
    ensures SameEdge(e, f) <==> multiset{e.a, e.b} == multiset{f.a, f.b}
  {
    if multiset{e.a, e.b} == multiset{f.a, f.b} {
      assert e.a in multiset{f.a, f.b};
      if e.a == f.a {
        assert multiset{e.b} == multiset{e.a, e.b} - multiset{e.a};
        assert multiset{f.b} == multiset{f.a, f.b} - multiset{f.a};
      } else {
        assert e.a == f.b;
        assert multiset{e.b} == multiset{e.a, e.b} - multiset{e.a};
        assert multiset{f.a} == multiset{f.a, f.b} - multiset{f.b};
      }
    }
  }

  /** Edge equality is an equivalence that ignores endpoint order. */
  lemma SameEdgeEquivalence(e: Edge, f: Edge, g: Edge)
    ensures SameEdge(e, e) && SameEdge(e, Reverse(e))
    ensures SameEdge(e, f) ==> SameEdge(f, e)
    ensures SameEdge(e, f) && SameEdge(f, g) ==> SameEdge(e, g)
  {
  }

  /**
   * `connectingPoint`: an endpoint of `f` that `e` also touches, trying f's A
   * before its B; null when the edges share no endpoint.
   */
  function ConnectingPoint(e: Edge, f: Edge): (r: Option<int>)
    ensures r.Some? ==> HasPoint(e, r.value) && HasPoint(f, r.value)
    ensures r.None? <==> !(HasPoint(e, f.a) || HasPoint(e, f.b))
    ensures r.Some? && HasPoint(e, f.a) ==> r.value == f.a
  {
    if HasPoint(e, f.a) then Some(f.a)
    else if HasPoint(e, f.b) then Some(f.b)
    else None
  }

  /** The key "lo->hi" of an edge, as the pair of numbers it prints. */
  datatype PairKey = PairKey(lo: int, hi: int)

  /**
   * `pathKey`: the endpoint with the smaller sequence first.  On a tie the
   * code takes B then A, which prints the same two numbers.
   */
  function PathKey(e: Edge): (k: PairKey)
    ensures k.lo <= k.hi
    ensures multiset{k.lo, k.hi} == multiset{e.a, e.b}
  {
    if e.a < e.b then PairKey(e.a, e.b) else PairKey(e.b, e.a)
  }

  /** Two edges have the same key exactly when they are equal edges. */
  lemma PathKeyIdentifiesEdge(e: Edge, f: Edge)
    ensures PathKey(e) == PathKey(f) <==> SameEdge(e, f)
  {
    SameEdgeIsEndpointMultiset(e, f);
    var ke, kf := PathKey(e), PathKey(f);
    if multiset{e.a, e.b} == multiset{f.a, f.b} {
      assert multiset{ke.lo, ke.hi} == multiset{kf.lo, kf.hi};
      SameEdgeIsEndpointMultiset(Edge(ke.lo, ke.hi), Edge(kf.lo, kf.hi));
    }
  }

  /** Reversing an edge leaves its key unchanged. */
  lemma PathKeySymmetric(e: Edge)
    ensures PathKey(Reverse(e)) == PathKey(e)
  {
    PathKeyIdentifiesEdge(e, Reverse(e));
  }
}

/**
 * `lazyman.core.model.Path`: an edge with a working length, the measured
 * length (`actualLength`) and a usable flag.
 */
module CorePath {
  import opened Common
  import opened Order
  import opened Edges

  datatype Path = Path(edge: Edge, length: real, actualLength: real, usable: bool)

  /** The explicit-length constructor: both lengths take the given value. */
  function NewPath(a: int, b: int, length: real): (p: Path)
    ensures p.edge.a == a && p.edge.b == b
    ensures p.length == length && p.actualLength == length
    ensures p.usable
  {
    Path(Edge(a, b), length, length, true)
  }

  /** `SortByLength`: non-null before null, then by `actualLength`. */
  function SortByLength(o1: Option<Path>, o2: Option<Path>): (v: int)
    ensures o1.None? && o2.None? ==> v == 0
    ensures o1.Some? && o2.None? ==> v < 0
    ensures o1.None? && o2.Some? ==> v > 0
    ensures o1.Some? && o2.Some? ==>
      Sgn(v) == SgnR(o1.value.actualLength - o2.value.actualLength)
  {
    NullsLast(if o1.Some? then Some(o1.value.actualLength) else None,
              if o2.Some? then Some(o2.value.actualLength) else None)
  }

  /** The ordering `SortByLength` imposes is antisymmetric. */
  lemma SortByLengthAntisymmetric(o1: Option<Path>, o2: Option<Path>)
    ensures Sgn(SortByLength(o1, o2)) == -Sgn(SortByLength(o2, o1))
  {
  }
}

/** `lazyman.model.Path2D`: an edge with one length. */
module Path2D {
  import opened Common
  import opened Order
  import opened Edges

  datatype Path2D = Path2D(edge: Edge, length: real)

  /** The static `pathKey(A, B)` overload on two points. */
  function PointsKey(a: int, b: int): (k: PairKey)
    ensures k.lo <= k.hi && multiset{k.lo, k.hi} == multiset{a, b}
  {
    var lo := if a < b then a else b;
    var hi := if a < b then b else a;
    PairKey(lo, hi)
  }

  /** `pathKey(path)` agrees with `pathKey(A, B)` and with either order of A, B. */
  lemma PathKeyOverloadsAgree(p: Path2D)
    ensures PathKey(p.edge) == PointsKey(p.edge.a, p.edge.b)
    ensures PointsKey(p.edge.a, p.edge.b) == PointsKey(p.edge.b, p.edge.a)
  {
  }

  /**
   * `SortByDistance` and `SortByLength` (both read the one length): non-null
   * before null, then by length.
   */
  function SortByLength(o1: Option<Path2D>, o2: Option<Path2D>): (v: int)
    ensures o1.None? && o2.None? ==> v == 0
    ensures o1.Some? && o2.None? ==> v < 0
    ensures o1.None? && o2.Some? ==> v > 0
    ensures o1.Some? && o2.Some? ==> Sgn(v) == SgnR(o1.value.length - o2.value.length)
  {
    NullsLast(if o1.Some? then Some(o1.value.length) else None,
              if o2.Some? then Some(o2.value.length) else None)
  }
}

/**
 * `lazyman.v2.model.Path`: an edge whose measured length comes from the
 * endpoint coordinates and whose working length starts at 0.
 */
module V2Path {
  import opened Common
  import opened Order
  import opened Edges

  datatype Path = Path(edge: Edge, length: real, actualLength: real)

  /** The coordinates of a point, as a pair of reals. */
  datatype Coord = Coord(x: real, y: real)

  /** The constructor: working length 0, measured length the endpoint distance. */
  function NewPath(a: int, b: int, dist: (int, int) -> real): (p: Path)
    ensures p.edge == Edge(a, b)
    ensures p.length == 0.0 && p.actualLength == dist(a, b)
  {
    Path(Edge(a, b), 0.0, dist(a, b))
  }

  /** `target`: the other endpoint; a point off the path raises an exception. */
  function Target(p: Path, source: int): (r: Result<int>)
    ensures r.Ok? <==> HasPoint(p.edge, source)
    ensures r.Ok? ==> Edges.Target(p.edge, source) == Some(r.value)
    ensures r.Fail? ==> r.error == IllegalState
  {
    if source == p.edge.a then Ok(p.edge.b)
    else if source == p.edge.b then Ok(p.edge.a)
    else Fail(IllegalState)
  }

  /** `Point.compare`: by X, then by Y, coarsened to an int. */
  function Compare(s: Coord, t: Coord): (v: int)
    ensures v == 0 <==> s == t
  {
    var d := if s.x - t.x == 0.0 then s.y - t.y else s.x - t.x;
    Coarse(d)
  }

  /** `Point.compare` is antisymmetric in sign. */
  lemma CompareAntisymmetric(s: Coord, t: Coord)
    ensures Sgn(Compare(s, t)) == -Sgn(Compare(t, s))
  {
  }

  /** The four coordinates `pathKey` prints, lesser endpoint first. */
  datatype CoordKey = CoordKey(s: Coord, t: Coord)

  /** `pathKey`: the endpoint with `compare <= 0` is printed first. */
  function PathKey(p: Path, coord: int -> Coord): (k: CoordKey)
    ensures {k.s, k.t} == {coord(p.edge.a), coord(p.edge.b)}
    ensures Compare(k.s, k.t) <= 0
  {
    var ca, cb := coord(p.edge.a), coord(p.edge.b);
    if Compare(ca, cb) <= 0 then CoordKey(ca, cb) else CoordKey(cb, ca)
  }

  /** The reversed path has the same key. */
  lemma PathKeySymmetric(p: Path, coord: int -> Coord)
    ensures PathKey(p, coord) == PathKey(p.(edge := Reverse(p.edge)), coord)
  {
  }
}

/**
 * `salesman.core.model.Path`: an edge with a fixed length whose `distance()`
 * is an unfinished stub.
 */
module SalesPath {
  import opened Common
  import opened Order
  import opened Edges

  datatype Path = Path(edge: Edge, length: real)

  /** `distance()`: computes nothing and always answers -1. */
  function Distance(p: Path): real
  {
    -1.0
  }

  /** `compareTo`: the narrowed difference of the two distances. */
  function CompareTo(p: Path, o: Path): int
  {
    JavaInt(Distance(p) - Distance(o))
  }

  /** Because `distance()` is constant, `compareTo` ties every pair of paths. */
  lemma CompareToAlwaysTies(p: Path, o: Path)
    ensures CompareTo(p, o) == 0
  {
  }

  /** `SortByLength`: non-null before null, then by length. */
  function SortByLength(o1: Option<Path>, o2: Option<Path>): (v: int)
    ensures o1.None? && o2.None? ==> v == 0
    ensures o1.Some? && o2.None? ==> v < 0
    ensures o1.None? && o2.Some? ==> v > 0
    ensures o1.Some? && o2.Some? ==> Sgn(v) == SgnR(o1.value.length - o2.value.length)
  {
    NullsLast(if o1.Some? then Some(o1.value.length) else None,
              if o2.Some? then Some(o2.value.length) else None)
  }
}
