/**
 * `salesman.core.PointIndexOut`: for every point, two slots naming the
 * neighbours it is linked to.
 */
module SalesPointIndexOut {
  import opened Common
  import opened Edges
  import SalesPath

  /** `PointInfo`: a neighbour and the distance to it. */
  datatype Info = Info(sequence: int, distance: real)

  /**
   * The two slots of one point.  Each `put` also stores `path.distance()`,
   * which is passed in as `dist`.
   */
  datatype Slots = Slots(s0: Option<Info>, s1: Option<Info>)

  /** The index: point sequence to its slots. */
  type Index = map<int, Slots>

  /** What `remove` leaves behind, what it answers, and any exception. */
  datatype Removal = Removal(index: Index, info: Option<Info>, thrown: Option<Error>)

  /** The constructor: a positive capacity gives an empty index. */
  function New(size: int): (r: Result<Index>)
    ensures r.Ok? <==> size > 0
    ensures r.Ok? ==> r.value == map[]
    ensures r.Fail? ==> r.error == IllegalArgument
  {
    if size > 0 then Ok(map[]) else Fail(IllegalArgument)
  }

  /** `put(sequence)`: a new entry with two empty slots for an unseen positive sequence. */
  function PutEmpty(idx: Index, sequence: int): (r: Result<Index>)
    ensures r.Ok? <==> sequence > 0 && sequence !in idx
    ensures r.Fail? ==> r.error == (if sequence <= 0 then IllegalArgument else IndexOutOfBounds)
    ensures r.Ok? ==> r.value == idx[sequence := Slots(None, None)]
  {
    if sequence <= 0 then Fail(IllegalArgument)
    else if sequence in idx then Fail(IndexOutOfBounds)
    else Ok(idx[sequence := Slots(None, None)])
  }

  /** The endpoint `put` records: B when the sequence is A, otherwise A. */
  function OtherEnd(e: Edge, sequence: int): (t: int)
    ensures HasPoint(e, sequence) ==> Edges.Target(e, sequence) == Some(t)
    ensures !HasPoint(e, sequence) ==> t == e.a
  {
    if sequence == e.a then e.b else e.a
  }

  /**
   * `put(sequence, path)`: creates the entry when needed, then records the
   * path's other endpoint in slot 0 if it is empty, else in slot 1; a full
   * entry raises an exception.
   */
  function PutPath(idx: Index, sequence: int, path: SalesPath.Path, dist: real): (r: Result<(Index, Info)>)
    ensures r.Ok? <==> sequence > 0 && (sequence !in idx || idx[sequence].s0.None? || idx[sequence].s1.None?)
    ensures r.Fail? ==> r.error == (if sequence <= 0 then IllegalArgument else IndexOutOfBounds)
    ensures r.Ok? ==>
      var (out, info) := r.value;
      var before := if sequence in idx then idx[sequence] else Slots(None, None);
      info == Info(OtherEnd(path.edge, sequence), dist)
      && out.Keys == idx.Keys + {sequence}
      && (forall k :: k in idx && k != sequence ==> out[k] == idx[k])
      && (before.s0.None? ==> out[sequence] == before.(s0 := Some(info)))
      && (before.s0.Some? ==> out[sequence] == before.(s1 := Some(info)))
  {
    if sequence <= 0 then Fail(IllegalArgument)
    else
      var pis := if sequence in idx then idx[sequence] else Slots(None, None);
      if pis.s0.Some? && pis.s1.Some? then Fail(IndexOutOfBounds)
      else
        var info := Info(OtherEnd(path.edge, sequence), dist);
        var slots := if pis.s0.None? then pis.(s0 := Some(info)) else pis.(s1 := Some(info));
        Ok((idx[sequence := slots], info))
  }

  /** A slot names neighbour `p2`. */
  predicate Names(o: Option<Info>, p2: int)
  {
    o.Some? && o.value.sequence == p2
  }

  /**
   * `removeNode(p1, p2)`: clears the first slot of `p1` naming `p2` and
   * answers its entry, or null; an unknown `p1` raises an exception.
   */
  function RemoveNode(idx: Index, p1: int, p2: int): (r: Result<(Index, Option<Info>)>)
    ensures r.Ok? <==> p1 in idx
    ensures r.Fail? ==> r.error == IndexOutOfBounds
    ensures r.Ok? ==>
      var (out, info) := r.value;
      out.Keys == idx.Keys && (forall k :: k in idx && k != p1 ==> out[k] == idx[k])
      && (info.None? <==> !Names(idx[p1].s0, p2) && !Names(idx[p1].s1, p2))
      && (info.None? ==> out == idx)
      && (Names(idx[p1].s0, p2) ==> info == idx[p1].s0 && out[p1] == idx[p1].(s0 := None))
      && (!Names(idx[p1].s0, p2) && Names(idx[p1].s1, p2) ==> info == idx[p1].s1 && out[p1] == idx[p1].(s1 := None))
  {
    if p1 !in idx then Fail(IndexOutOfBounds)
    else
      var pis := idx[p1];
      if Names(pis.s0, p2) then Ok((idx[p1 := pis.(s0 := None)], pis.s0))
      else if Names(pis.s1, p2) then Ok((idx[p1 := pis.(s1 := None)], pis.s1))
      else Ok((idx, None))
  }

  /**
   * `remove(sequence, target)`: clears `sequence`'s link to `target`, and
   * only when there was one, `target`'s link back.  The second step may raise
   * an exception after the first has taken effect.
   */
  function Remove(idx: Index, sequence: int, target: int): (r: Removal)
    ensures r.thrown.Some? && (sequence <= 0 || target <= 0 || target == sequence) ==>
      r.thrown == Some(IllegalArgument) && r.index == idx
    ensures r.thrown.None? <==>
      sequence > 0 && target > 0 && target != sequence && sequence in idx
      && (Names(idx[sequence].s0, target) || Names(idx[sequence].s1, target) ==> target in idx)
    ensures r.thrown.None? && r.info.None? ==> r.index == idx
    ensures r.thrown.None? && r.info.Some? ==>
      r.info.value.sequence == target
      && RemoveNode(idx, sequence, target) == Ok((RemoveNode(idx, sequence, target).value.0, r.info))
      && var i1 := RemoveNode(idx, sequence, target).value.0;
         RemoveNode(i1, target, sequence).Ok? && r.index == RemoveNode(i1, target, sequence).value.0
  {
    if sequence <= 0 || !(target > 0 && target != sequence) then Removal(idx, None, Some(IllegalArgument))
    else
      match RemoveNode(idx, sequence, target)
      case Fail(e) => Removal(idx, None, Some(e))
      case Ok((idx1, pi)) =>
        if pi.None? then Removal(idx1, None, None)
        else
          match RemoveNode(idx1, target, sequence)
          case Fail(e) => Removal(idx1, pi, Some(e))
          case Ok((idx2, _)) => Removal(idx2, pi, None)
  }

  /**
   * `put(sequence, replace, path)`: creates a missing entry with the new link
   * in slot 0; otherwise takes a free slot 1, or overwrites the slot naming
   * `replace`.  An empty slot 0 met when both other options fail is a null
   * dereference; no slot naming `replace` raises an exception.
   */
  function PutReplace(idx: Index, sequence: int, replace: int, path: SalesPath.Path, dist: real): (r: Result<Index>)
    ensures r.Ok? ==> sequence > 0 && HasPoint(path.edge, sequence) && r.value.Keys == idx.Keys + {sequence}
    ensures r.Ok? ==> forall k :: k in idx && k != sequence ==> r.value[k] == idx[k]
    ensures sequence > 0 && HasPoint(path.edge, sequence) && sequence !in idx ==>
      r == Ok(idx[sequence := Slots(Some(Info(OtherEnd(path.edge, sequence), dist)), None)])
    ensures sequence > 0 && HasPoint(path.edge, sequence) && sequence in idx ==>
      var info := Info(OtherEnd(path.edge, sequence), dist);
      var pis := idx[sequence];
      (pis.s1.None? ==> r == Ok(idx[sequence := pis.(s1 := Some(info))]))
      && (pis.s1.Some? && pis.s0.None? ==> r == Fail(NullPointer))
      && (pis.s1.Some? && Names(pis.s0, replace) ==> r == Ok(idx[sequence := pis.(s0 := Some(info))]))
      && (pis.s1.Some? && pis.s0.Some? && !Names(pis.s0, replace) && Names(pis.s1, replace) ==>
            r == Ok(idx[sequence := pis.(s1 := Some(info))]))
      && (pis.s0.Some? && !Names(pis.s0, replace) && !Names(pis.s1, replace) && pis.s1.Some? ==>
            r == Fail(IndexOutOfBounds))
    ensures !(sequence > 0 && HasPoint(path.edge, sequence)) ==> r == Fail(IllegalArgument)
  {
    if sequence <= 0 || !HasPoint(path.edge, sequence) then Fail(IllegalArgument)
    else
      var info := Info(OtherEnd(path.edge, sequence), dist);
      if sequence !in idx then Ok(idx[sequence := Slots(Some(info), None)])
      else
        var pis := idx[sequence];
        if pis.s1.None? then Ok(idx[sequence := pis.(s1 := Some(info))])
        else if pis.s0.None? then Fail(NullPointer)
        else if pis.s0.value.sequence == replace then Ok(idx[sequence := pis.(s0 := Some(info))])
        else if pis.s1.value.sequence == replace then Ok(idx[sequence := pis.(s1 := Some(info))])
        else Fail(IndexOutOfBounds)
  }

  /** `getPoints`: the slots of a known sequence, null otherwise. */
  function GetPoints(idx: Index, sequence: int): (r: Option<Slots>)
    ensures r.Some? <==> sequence in idx
    ensures r.Some? ==> r.value == idx[sequence]
  {
    if sequence in idx then Some(idx[sequence]) else None
  }

  /**
   * Clearing the neighbour a `put` just recorded in an otherwise empty entry
   * gives back the entry `put(sequence)` creates.
   */
  lemma PutThenRemoveNode(idx: Index, sequence: int, path: SalesPath.Path, dist: real)
    requires sequence > 0 && sequence !in idx
    ensures PutPath(idx, sequence, path, dist).Ok?
    ensures
      var (out, info) := PutPath(idx, sequence, path, dist).value;
      RemoveNode(out, sequence, info.sequence) == Ok((PutEmpty(idx, sequence).value, Some(info)))
  {
    var (out, info) := PutPath(idx, sequence, path, dist).value;
    assert out == idx[sequence := Slots(Some(info), None)];
    assert out[sequence := Slots(None, None)] == idx[sequence := Slots(None, None)];
  }

  /**
   * Recording a link at both ends and then removing it clears both ends:
   * neither endpoint names the other afterwards, for entries that named
   * nobody before.
   */
  lemma PutBothThenRemove(idx: Index, a: int, b: int, path: SalesPath.Path, dist: real)
    requires a > 0 && b > 0 && a != b && path.edge == Edge(a, b)
    requires a !in idx && b !in idx
    ensures PutPath(idx, a, path, dist).Ok?
    ensures PutPath(PutPath(idx, a, path, dist).value.0, b, path, dist).Ok?
    ensures
      var both := PutPath(PutPath(idx, a, path, dist).value.0, b, path, dist).value.0;
      var r := Remove(both, a, b);
      r.thrown.None? && r.info.Some? && r.index == both[a := Slots(None, None)][b := Slots(None, None)]
  {
  }
}

/**
 * `salesman.core.PointIndexIn`: for every point, the list of neighbours
 * linked to it, one entry per direction of each added path.
 */
module SalesPointIndexIn {
  import opened Common
  import opened Edges
  import SalesPath

  /** `PointInfo`: a neighbour and the distance to it. */
  datatype Info = Info(sequence: int, distance: real)

  type Index = map<int, seq<Info>>

  /** The constructor: a positive capacity gives an empty index. */
  function New(size: int): (r: Result<Index>)
    ensures r.Ok? <==> size > 0
    ensures r.Ok? ==> r.value == map[]
    ensures r.Fail? ==> r.error == IllegalArgument
  {
    if size > 0 then Ok(map[]) else Fail(IllegalArgument)
  }

  /** `find`: the list of a known positive sequence, null for an unknown one. */
  function Find(idx: Index, sequence: int): (r: Result<Option<seq<Info>>>)
    ensures r.Fail? <==> sequence <= 0
    ensures r.Fail? ==> r.error == IllegalArgument
    ensures r.Ok? ==> (r.value.Some? <==> sequence in idx)
    ensures r.Ok? && r.value.Some? ==> r.value.value == idx[sequence]
  {
    if sequence <= 0 then Fail(IllegalArgument)
    else if sequence in idx then Ok(Some(idx[sequence]))
    else Ok(None)
  }

  /** The private `add(sequence, target, distance)`; `add(path)` passes `path.distance()`: appends to the sequence's list. */
  function AddEntry(idx: Index, sequence: int, target: int, distance: real): (r: Index)
    ensures r.Keys == idx.Keys + {sequence}
    ensures r[sequence] == (if sequence in idx then idx[sequence] else []) + [Info(target, distance)]
    ensures forall k :: k in idx && k != sequence ==> r[k] == idx[k]
  {
    var points := if sequence in idx then idx[sequence] else [];
    idx[sequence := points + [Info(target, distance)]]
  }

  /** `add(path)`: one entry A to B, then one entry B to A. */
  function Add(idx: Index, path: SalesPath.Path, d: real): (r: Index)
  {
    AddEntry(AddEntry(idx, path.edge.a, path.edge.b, d), path.edge.b, path.edge.a, d)
  }

  /** Number of entries naming `target` in the list of `sequence`. */
  function Entries(idx: Index, sequence: int, target: int): nat
  {
    if sequence in idx then CountNamed(idx[sequence], target) else 0
  }

  function CountNamed(s: seq<Info>, target: int): nat
  {
    if |s| == 0 then 0 else (if s[0].sequence == target then 1 else 0) + CountNamed(s[1..], target)
  }

  lemma CountNamedAppend(s: seq<Info>, x: Info, target: int)
    ensures CountNamed(s + [x], target) == CountNamed(s, target) + (if x.sequence == target then 1 else 0)
  {
    if |s| > 0 {
      assert (s + [x])[1..] == s[1..] + [x];
      CountNamedAppend(s[1..], x, target);
    }
  }

  /** `add(path)` records one more link in each direction and no other. */
  lemma AddRecordsBothDirections(idx: Index, path: SalesPath.Path, d: real, k: int, t: int)
    requires path.edge.a != path.edge.b
    ensures Entries(Add(idx, path, d), k, t) ==
      Entries(idx, k, t)
      + (if k == path.edge.a && t == path.edge.b then 1 else 0)
      + (if k == path.edge.b && t == path.edge.a then 1 else 0)
  {
    var a, b := path.edge.a, path.edge.b;
    var i1 := AddEntry(idx, a, b, d);
    if k == a {
      CountNamedAppend(if a in idx then idx[a] else [], Info(b, d), t);
    } else if k == b {
      CountNamedAppend(if b in i1 then i1[b] else [], Info(a, d), t);
    }
  }

  /**
   * The private `remove(sequence, target)` as written: checks both arguments
   * and answers whether a matching entry exists, deleting nothing.
   */
  function Contains(idx: Index, sequence: int, target: int): (r: Result<bool>)
    ensures r.Fail? <==> sequence <= 0 || target <= 0
    ensures r.Fail? ==> r.error == IllegalArgument
    ensures r.Ok? ==> (r.value <==> Entries(idx, sequence, target) > 0)
  {
    if sequence <= 0 || target <= 0 then Fail(IllegalArgument)
    else Ok(sequence in idx && HasNamed(idx[sequence], target))
  }

  predicate HasNamed(s: seq<Info>, target: int)
    ensures HasNamed(s, target) <==> CountNamed(s, target) > 0
  {
    if |s| == 0 then false else s[0].sequence == target || HasNamed(s[1..], target)
  }

  /**
   * `remove(path)` as written: fails when either direction is missing, and
   * otherwise leaves the index as it was.
   */
  function RemoveAsWritten(idx: Index, path: SalesPath.Path): (r: Result<Index>)
    ensures r.Ok? ==> r.value == idx
    ensures r.Ok? <==>
              (path.edge.a > 0 && path.edge.b > 0
               && Entries(idx, path.edge.a, path.edge.b) > 0 && Entries(idx, path.edge.b, path.edge.a) > 0)
    ensures r.Fail? ==> r.error == IllegalArgument
  {
    match Contains(idx, path.edge.a, path.edge.b)
    case Fail(e) => Fail(e)
    case Ok(found) =>
      if !found then Fail(IllegalArgument)
      else
        match Contains(idx, path.edge.b, path.edge.a)
        case Fail(e) => Fail(e)
        case Ok(back) => if back then Ok(idx) else Fail(IllegalArgument)
  }

  /** Adding a path and removing it with the code as written leaves both entries in place. */
  lemma RemoveAsWrittenKeepsPath(path: SalesPath.Path, d: real)
    requires path.edge.a > 0 && path.edge.b > 0 && path.edge.a != path.edge.b
    ensures RemoveAsWritten(Add(map[], path, d), path) == Ok(Add(map[], path, d))
    ensures Add(map[], path, d) != map[]
  {
    AddRecordsBothDirections(map[], path, d, path.edge.a, path.edge.b);
    AddRecordsBothDirections(map[], path, d, path.edge.b, path.edge.a);
    assert path.edge.a in Add(map[], path, d);
  }

  /** The list without its first entry naming `target`. */
  function DropFirst(s: seq<Info>, target: int): (r: seq<Info>)
    ensures CountNamed(s, target) > 0 ==> CountNamed(r, target) + 1 == CountNamed(s, target)
    ensures CountNamed(s, target) == 0 ==> r == s
    ensures forall t :: t != target ==> CountNamed(r, t) == CountNamed(s, t)
  {
    if |s| == 0 then []
    else if s[0].sequence == target then s[1..]
    else
      var r := [s[0]] + DropFirst(s[1..], target);
      assert r[1..] == DropFirst(s[1..], target);
      r
  }

  /** The appended entry is the one `DropFirst` deletes when no earlier entry names its target. */
  lemma DropFirstOfAppended(s: seq<Info>, x: Info)
    requires CountNamed(s, x.sequence) == 0
    ensures DropFirst(s + [x], x.sequence) == s
  {
    if |s| > 0 {
      assert (s + [x])[1..] == s[1..] + [x];
      DropFirstOfAppended(s[1..], x);
      assert s == [s[0]] + s[1..];
    }
  }

  /** `remove(path)` as evidently intended: deletes one matching entry in each direction. */
  function Remove(idx: Index, path: SalesPath.Path): (r: Result<Index>)
    ensures r.Ok? <==> RemoveAsWritten(idx, path).Ok?
    ensures r.Fail? ==> r.error == IllegalArgument
    ensures r.Ok? ==> r.value.Keys == idx.Keys
  {
    match RemoveAsWritten(idx, path)
    case Fail(e) => Fail(e)
    case Ok(_) =>
      var a, b := path.edge.a, path.edge.b;
      var i1 := idx[a := DropFirst(idx[a], b)];
      Ok(i1[b := DropFirst(i1[b], a)])
  }

  /** Removing a path just added to an index without it gives the index back. */
  lemma AddThenRemove(idx: Index, path: SalesPath.Path, d: real)
    requires path.edge.a > 0 && path.edge.b > 0 && path.edge.a != path.edge.b
    requires path.edge.a in idx && path.edge.b in idx
    requires Entries(idx, path.edge.a, path.edge.b) == 0 && Entries(idx, path.edge.b, path.edge.a) == 0
    ensures Remove(Add(idx, path, d), path) == Ok(idx)
  {
    var a, b := path.edge.a, path.edge.b;
    var added := Add(idx, path, d);
    AddRecordsBothDirections(idx, path, d, a, b);
    AddRecordsBothDirections(idx, path, d, b, a);
    assert added[a] == idx[a] + [Info(b, d)];
    assert added[b] == idx[b] + [Info(a, d)];
    DropFirstOfAppended(idx[a], Info(b, d));
    DropFirstOfAppended(idx[b], Info(a, d));
    var i1 := added[a := DropFirst(added[a], b)];
    assert i1[b] == added[b];
    var r := i1[b := DropFirst(i1[b], a)];
    assert r.Keys == idx.Keys;
    assert forall k :: k in idx ==> r[k] == idx[k];
    assert r == idx;
    assert RemoveAsWritten(added, path).Ok?;
  }

  /** `clear`: empties a known sequence's list and answers whether it was known. */
  function Clear(idx: Index, sequence: int): (r: Result<(Index, bool)>)
    ensures r.Fail? <==> sequence <= 0
    ensures r.Fail? ==> r.error == IllegalArgument
    ensures r.Ok? ==> (r.value.1 <==> sequence in idx)
    ensures r.Ok? && r.value.1 ==> r.value.0 == idx[sequence := []]
    ensures r.Ok? && !r.value.1 ==> r.value.0 == idx
  {
    if sequence <= 0 then Fail(IllegalArgument)
    else if sequence in idx then Ok((idx[sequence := []], true))
    else Ok((idx, false))
  }
}

/** `salesman.core.TSPDataMap`: the symmetric pair key and the argument checks of `init`. */
module SalesDataMap {
  import opened Common
  import opened Edges

  /** `getKey(s1, s2)`: "min:max" as the pair of numbers it prints. */
  function GetKey(s1: int, s2: int): (k: PairKey)
    ensures k.lo <= k.hi && multiset{k.lo, k.hi} == multiset{s1, s2}
  {
    if s1 <= s2 then PairKey(s1, s2) else PairKey(s2, s1)
  }

  /** The key does not depend on argument order, and agrees with the path key of the edge. */
  lemma GetKeySymmetric(s1: int, s2: int)
    ensures GetKey(s1, s2) == GetKey(s2, s1)
    ensures GetKey(s1, s2) == PathKey(Edge(s1, s2))
    ensures GetKey(s1, s1) == PairKey(s1, s1)
  {
    PathKeyIdentifiesEdge(Edge(s1, s2), Edge(s2, s1));
  }

  /** Two pairs share a key exactly when they are the same two points. */
  lemma GetKeyIdentifiesPair(s1: int, s2: int, t1: int, t2: int)
    ensures GetKey(s1, s2) == GetKey(t1, t2) <==> multiset{s1, s2} == multiset{t1, t2}
  {
    SameEdgeIsEndpointMultiset(Edge(s1, s2), Edge(t1, t2));
    PathKeyIdentifiesEdge(Edge(s1, s2), Edge(t1, t2));
  }

  /** `init`'s checks: a non-empty name and a positive size give `size` empty point slots. */
  function Init(name: string, size: int): (r: Result<seq<Option<int>>>)
    ensures r.Ok? <==> |name| > 0 && size > 0
    ensures r.Fail? ==> r.error == IllegalArgument
    ensures r.Ok? ==> |r.value| == size && forall i :: 0 <= i < |r.value| ==> r.value[i].None?
  {
    if |name| == 0 || size <= 0 then Fail(IllegalArgument)
    else Ok(seq(size, _ => None))
  }
}

/**
 * `salesman.core.model.Bid`: how often, and at what elevation, a point has
 * bid for a link to each target.  The point's own elevation, recomputed
 * from the records, is a parameter (`computeElevation`).
 */
module SalesBid {
  import opened Common
  import opened Edges
  import SalesPath

  datatype BidTarget = BidTarget(elevation: real, count: nat)

  datatype Bid = Bid(point: int, targets: map<int, BidTarget>)

  /**
   * `add(path, elevation)`: the target's record gets the new elevation and
   * one more bid, created on the first bid; the point's elevation is then
   * recomputed.  A path off the point has no target (a null dereference).
   */
  function Add(b: Bid, path: SalesPath.Path, elevation: real, compute: map<int, BidTarget> -> real)
    : (r: Result<(Bid, real)>)
    ensures r.Ok? <==> HasPoint(path.edge, b.point)
    ensures r.Fail? ==> r.error == NullPointer
    ensures r.Ok? ==>
      var (nb, e) := r.value;
      var t := Edges.Target(path.edge, b.point).value;
      nb.point == b.point
      && nb.targets.Keys == b.targets.Keys + {t}
      && nb.targets[t].elevation == elevation
      && nb.targets[t].count == (if t in b.targets then b.targets[t].count else 0) + 1
      && (forall k :: k in b.targets && k != t ==> nb.targets[k] == b.targets[k])
      && e == compute(nb.targets)
  {
    match Edges.Target(path.edge, b.point)
    case None => Fail(NullPointer)
    case Some(t) =>
      var count := if t in b.targets then b.targets[t].count else 0;
      var targets := b.targets[t := BidTarget(elevation, count + 1)];
      Ok((Bid(b.point, targets), compute(targets)))
  }

  /**
   * `shouldBid(path, elevation)`: yes for an unseen target or one bid for
   * fewer than twice; otherwise only above the stored elevation.
   */
  function ShouldBid(b: Bid, path: SalesPath.Path, elevation: real): (r: Result<bool>)
    ensures r.Ok? <==> HasPoint(path.edge, b.point)
    ensures r.Fail? ==> r.error == NullPointer
    ensures r.Ok? ==>
      var t := Edges.Target(path.edge, b.point).value;
      (!r.value <==> t in b.targets && b.targets[t].count >= 2 && elevation <= b.targets[t].elevation)
  {
    match Edges.Target(path.edge, b.point)
    case None => Fail(NullPointer)
    case Some(t) =>
      if t in b.targets && b.targets[t].count >= 2 then Ok(!(elevation <= b.targets[t].elevation))
      else Ok(true)
  }

  /**
   * After two bids for the same target, a further bid is advised exactly
   * when it is above the last bid's elevation.
   */
  lemma ShouldBidAfterTwo(b: Bid, path: SalesPath.Path, e1: real, e2: real, e: real,
                          compute: map<int, BidTarget> -> real)
    requires HasPoint(path.edge, b.point)
    ensures Add(b, path, e1, compute).Ok?
    ensures Add(Add(b, path, e1, compute).value.0, path, e2, compute).Ok?
    ensures ShouldBid(Add(Add(b, path, e1, compute).value.0, path, e2, compute).value.0, path, e) == Ok(e > e2)
  {
  }

  /** The first bid for a target always leaves a further bid advised. */
  lemma ShouldBidAfterOne(b: Bid, path: SalesPath.Path, e1: real, e: real, compute: map<int, BidTarget> -> real)
    requires HasPoint(path.edge, b.point)
    requires Edges.Target(path.edge, b.point).value !in b.targets
    ensures Add(b, path, e1, compute).Ok?
    ensures ShouldBid(Add(b, path, e1, compute).value.0, path, e) == Ok(true)
  {
  }
}
