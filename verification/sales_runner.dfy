/**
 * The link-assignment helpers of `salesman.core.Runner`, working on a
 * `PointIndexOut`: a point missing a neighbour bids for its nearest paths,
 * and a target with both slots taken gives up both of its neighbours to a
 * winning bid.
 *
 * The sorted candidate paths of a point, the path between two points, and
 * `Path.distance()` are parameters (`Oracle`).  `reader.updatePath`, which
 * stores a new height for the path, does not affect the index and is left
 * out.
 */
module SalesRunner {
  import opened Common
  import opened Edges
  import SalesPath
  import opened SalesPointIndexOut

  /** What the helpers read from the data reader. */
  datatype Oracle = Oracle(
    sortedPaths: int -> Option<seq<SalesPath.Path>>,  // reader.getSortedPaths(sequence)
    pathBetween: (int, int) -> Option<SalesPath.Path>, // reader.cache().get(a, b)
    distance: SalesPath.Path -> real)                 // Path.distance()

  /** The index after a helper, the entry it answers, and any exception. */
  datatype Step = Step(index: Index, info: Option<Info>, thrown: Option<Error>)

  /** Every key of the index is positive, as every `put` demands. */
  predicate PositiveKeys(idx: Index)
  {
    forall k :: k in idx ==> k > 0
  }

  /** Both slots of a known entry are taken. */
  predicate Full(idx: Index, k: int)
  {
    k in idx && idx[k].s0.Some? && idx[k].s1.Some?
  }

  function SlotOf(s: Slots, i: int): Option<Info>
    requires i == 0 || i == 1
  {
    if i == 0 then s.s0 else s.s1
  }

  /** `ignorePath`: slot `i` names a neighbour that is an endpoint of the path. */
  predicate IgnorePath(s: Slots, i: int, path: SalesPath.Path)
    requires i == 0 || i == 1
  {
    SlotOf(s, i).Some? && HasPoint(path.edge, SlotOf(s, i).value.sequence)
  }

  /**
   * `max(point, points)`: the slot whose neighbour is at least as far away,
   * slot 0 on a tie; a missing path raises an exception.
   */
  function Max(o: Oracle, point: int, s: Slots): (r: Result<int>)
    requires s.s0.Some? && s.s1.Some?
    ensures r.Ok? <==> o.pathBetween(point, s.s0.value.sequence).Some? && o.pathBetween(point, s.s1.value.sequence).Some?
    ensures r.Fail? ==> r.error == IllegalState
    ensures r.Ok? ==> (r.value == 0 || r.value == 1)
    ensures r.Ok? ==>
      (r.value == 0 <==>
         o.distance(o.pathBetween(point, s.s0.value.sequence).value)
           >= o.distance(o.pathBetween(point, s.s1.value.sequence).value))
  {
    match o.pathBetween(point, s.s0.value.sequence)
    case None => Fail(IllegalState)
    case Some(p0) =>
      match o.pathBetween(point, s.s1.value.sequence)
      case None => Fail(IllegalState)
      case Some(p1) => if o.distance(p0) >= o.distance(p1) then Ok(0) else Ok(1)
  }

  /**
   * `reserve(target, points, path, sequence, distance, index0, index1)`:
   * removes the target's neighbour in slot `index0`, then the one now in
   * slot `index1`, each at both ends, and records the path at the bidding
   * point only.  A removal that finds nothing raises an exception.
   */
  function Reserve(o: Oracle, idx: Index, target: int, path: SalesPath.Path, sequence: int,
                   index0: int, index1: int): (r: Step)
    requires target in idx && (index0 == 0 || index0 == 1) && (index1 == 0 || index1 == 1)
    requires SlotOf(idx[target], index0).Some?
    ensures PositiveKeys(idx) ==> PositiveKeys(r.index)
    ensures r.thrown.None? ==> r.info.Some? && r.info.value.sequence == OtherEnd(path.edge, sequence)
    ensures r.thrown.None? ==>
      var n0 := SlotOf(idx[target], index0).value.sequence;
      var r1 := SalesPointIndexOut.Remove(idx, target, n0);
      r1.thrown.None? && r1.info.Some? && target in r1.index && SlotOf(r1.index[target], index1).Some?
      && var n1 := SlotOf(r1.index[target], index1).value.sequence;
         var r2 := SalesPointIndexOut.Remove(r1.index, target, n1);
         r2.thrown.None? && r2.info.Some?
         && r.info.Some? && PutPath(r2.index, sequence, path, o.distance(path)) == Ok((r.index, r.info.value))
  {
    var n0 := SlotOf(idx[target], index0).value.sequence;
    var r1 := SalesPointIndexOut.Remove(idx, target, n0);
    if r1.thrown.Some? then Step(r1.index, None, r1.thrown)
    else if r1.info.None? then Step(r1.index, None, Some(IllegalState))
    else
      var live := GetPoints(r1.index, target);
      if live.None? || SlotOf(live.value, index1).None? then Step(r1.index, None, Some(NullPointer))
      else
        var n1 := SlotOf(live.value, index1).value.sequence;
        var r2 := SalesPointIndexOut.Remove(r1.index, target, n1);
        if r2.thrown.Some? then Step(r2.index, None, r2.thrown)
        else if r2.info.None? then Step(r2.index, None, Some(IllegalState))
        else
          match PutPath(r2.index, sequence, path, o.distance(path))
          case Fail(e) => Step(r2.index, None, Some(e))
          case Ok((idx3, info)) => Step(idx3, Some(info), None)
  }

  /**
   * A successful `reserve` leaves the target with no neighbour at all: both
   * of its links were removed and the new path was recorded at the bidding
   * point only.
   */
  lemma ReserveFreesTarget(o: Oracle, idx: Index, target: int, path: SalesPath.Path, sequence: int, index0: int)
    requires Full(idx, target) && (index0 == 0 || index0 == 1) && sequence != target
    requires Reserve(o, idx, target, path, sequence, index0, 1 - index0).thrown.None?
    ensures Reserve(o, idx, target, path, sequence, index0, 1 - index0).index[target] == Slots(None, None)
  {
    var n0 := SlotOf(idx[target], index0).value.sequence;
    var r1 := SalesPointIndexOut.Remove(idx, target, n0);
    var rn := RemoveNode(idx, target, n0);
    assert rn.Ok? && rn.value.1.Some?;
    assert r1.index[target] == rn.value.0[target];
    var n1 := SlotOf(r1.index[target], 1 - index0).value.sequence;
    var r2 := SalesPointIndexOut.Remove(r1.index, target, n1);
    var rn2 := RemoveNode(r1.index, target, n1);
    assert r2.index[target] == rn2.value.0[target];
  }

  /** The slots with slot `i` emptied. */
  function ClearSlot(s: Slots, i: int): (t: Slots)
    requires i == 0 || i == 1
    ensures SlotOf(t, i).None? && SlotOf(t, 1 - i) == SlotOf(s, 1 - i)
  {
    if i == 0 then s.(s0 := None) else s.(s1 := None)
  }

  /** Slot `i` is the first slot of `s` naming `p`. */
  predicate FirstNaming(s: Slots, i: int, p: int)
    requires i == 0 || i == 1
  {
    Names(SlotOf(s, i), p) && (i == 1 ==> !Names(s.s0, p))
  }

  /**
   * Removing a link recorded at both ends, in whichever slots, clears the
   * first slot naming it at each end, answers the entry cleared at `a`, and
   * changes nothing else.
   */
  lemma RemoveClearsBothEnds(idx: Index, a: int, b: int, i: int, j: int)
    requires a > 0 && b > 0 && a != b && a in idx && b in idx
    requires (i == 0 || i == 1) && (j == 0 || j == 1)
    requires FirstNaming(idx[a], i, b) && FirstNaming(idx[b], j, a)
    ensures
      var r := SalesPointIndexOut.Remove(idx, a, b);
      r.thrown.None? && r.info == SlotOf(idx[a], i)
      && r.index == idx[a := ClearSlot(idx[a], i)][b := ClearSlot(idx[b], j)]
  {
    var r := SalesPointIndexOut.Remove(idx, a, b);
    var i1 := RemoveNode(idx, a, b).value.0;
    assert i1 == idx[a := ClearSlot(idx[a], i)];
    assert i1[b] == idx[b];
    assert RemoveNode(i1, b, a).value.0 == i1[b := ClearSlot(idx[b], j)];
  }

  /**
   * `bidForPath(path, index, paths, sequence)`: a target with a free slot
   * gets the link recorded at both ends; otherwise the target gives up its
   * neighbours when the farther one (or, failing that, the other one) is
   * nearer than the next candidate, or unconditionally for the last
   * candidate.  A path off the point, a null next candidate or a missing
   * path raises an exception.
   */
  function BidForPath(o: Oracle, idx: Index, path: SalesPath.Path, index: int,
                      paths: seq<SalesPath.Path>, sequence: int): (r: Step)
    requires 0 <= index < |paths|
    ensures PositiveKeys(idx) ==> PositiveKeys(r.index)
    ensures !HasPoint(path.edge, sequence) ==> r == Step(idx, None, Some(IllegalState))
    ensures HasPoint(path.edge, sequence) && !Full(idx, OtherEnd(path.edge, sequence)) ==>
      var target := OtherEnd(path.edge, sequence);
      var first := PutPath(idx, sequence, path, o.distance(path));
      (r.thrown.None? <==> first.Ok? && PutPath(first.value.0, target, path, o.distance(path)).Ok?)
      && (r.thrown.None? ==>
            r.info == Some(first.value.1)
            && PutPath(first.value.0, target, path, o.distance(path)).value.0 == r.index)
    ensures HasPoint(path.edge, sequence) && Full(idx, OtherEnd(path.edge, sequence)) ==>
      var target := OtherEnd(path.edge, sequence);
      var m := Max(o, target, idx[target]);
      (m.Fail? ==> r == Step(idx, None, Some(m.error)))
      && (m.Ok? ==> Evicts(o, idx, target, path, index, paths, sequence, m.value, r))
  {
    match Edges.Target(path.edge, sequence)
    case None => Step(idx, None, Some(IllegalState))
    case Some(target) =>
      if !Full(idx, target) then
        match PutPath(idx, sequence, path, o.distance(path))
        case Fail(e) => Step(idx, None, Some(e))
        case Ok((idx1, pp)) =>
          match PutPath(idx1, target, path, o.distance(path))
          case Fail(e) => Step(idx1, None, Some(e))
          case Ok((idx2, _)) => Step(idx2, Some(pp), None)
      else
        var inps := idx[target];
        match Max(o, target, inps)
        case Fail(e) => Step(idx, None, Some(e))
        case Ok(pi) =>
          var po := 1 - pi;
          if index == |paths| - 1 then Reserve(o, idx, target, path, sequence, pi, po)
          else
            var dn := o.distance(paths[index + 1]);
            if SlotOf(inps, pi).value.distance < dn then Reserve(o, idx, target, path, sequence, pi, po)
            else if SlotOf(inps, po).value.distance < dn then Reserve(o, idx, target, path, sequence, po, pi)
            else Step(idx, None, None)
  }

  /**
   * The eviction rule for a full target whose farther neighbour sits in
   * slot `far`: for the last candidate both neighbours go, the farther one
   * first; otherwise they go, farther first, when the farther neighbour is
   * nearer than the next candidate, or nearer first when only the nearer
   * one is; failing both the bid passes without effect.
   */
  ghost predicate Evicts(o: Oracle, idx: Index, target: int, path: SalesPath.Path, index: int,
                         paths: seq<SalesPath.Path>, sequence: int, far: int, r: Step)
    requires Full(idx, target) && (far == 0 || far == 1) && 0 <= index < |paths|
  {
    var farD := SlotOf(idx[target], far).value.distance;
    var nearD := SlotOf(idx[target], 1 - far).value.distance;
    if index == |paths| - 1 then r == Reserve(o, idx, target, path, sequence, far, 1 - far)
    else
      var dn := o.distance(paths[index + 1]);
      (farD < dn ==> r == Reserve(o, idx, target, path, sequence, far, 1 - far))
      && (dn <= farD && nearD < dn ==> r == Reserve(o, idx, target, path, sequence, 1 - far, far))
      && (dn <= farD && dn <= nearD ==> r == Step(idx, None, None))
  }

  /**
   * A bid on a full target that answers an entry leaves the target with no
   * neighbour at all; a bid that neither answers nor throws changes nothing.
   */
  lemma BidOnFullTarget(o: Oracle, idx: Index, path: SalesPath.Path, index: int,
                        paths: seq<SalesPath.Path>, sequence: int)
    requires 0 <= index < |paths| && HasPoint(path.edge, sequence) && path.edge.a != path.edge.b
    requires Full(idx, OtherEnd(path.edge, sequence))
    ensures var r := BidForPath(o, idx, path, index, paths, sequence);
      (r.thrown.None? && r.info.Some? ==> r.index[OtherEnd(path.edge, sequence)] == Slots(None, None))
      && (r.thrown.None? && r.info.None? ==> r.index == idx)
  {
    var target := OtherEnd(path.edge, sequence);
    var r := BidForPath(o, idx, path, index, paths, sequence);
    var m := Max(o, target, idx[target]);
    if m.Ok? {
      EvictionFreesTarget(o, idx, target, path, index, paths, sequence, m.value, r);
    }
  }

  /** The eviction rule's outcomes, for a bidding point other than the target. */
  lemma EvictionFreesTarget(o: Oracle, idx: Index, target: int, path: SalesPath.Path, index: int,
                            paths: seq<SalesPath.Path>, sequence: int, far: int, r: Step)
    requires Full(idx, target) && (far == 0 || far == 1) && 0 <= index < |paths| && sequence != target
    requires Evicts(o, idx, target, path, index, paths, sequence, far, r)
    ensures r.thrown.None? && r.info.Some? ==> r.index[target] == Slots(None, None)
    ensures r.thrown.None? && r.info.None? ==> r.index == idx
  {
    var farD := SlotOf(idx[target], far).value.distance;
    var nearD := SlotOf(idx[target], 1 - far).value.distance;
    if index == |paths| - 1 || farD < o.distance(paths[index + 1]) {
      if r.thrown.None? {
        ReserveFreesTarget(o, idx, target, path, sequence, far);
      }
    } else if nearD < o.distance(paths[index + 1]) {
      if r.thrown.None? {
        assert far == 1 - (1 - far);
        ReserveFreesTarget(o, idx, target, path, sequence, 1 - far);
      }
    }
  }

  /** `Path.distance()` as the class defines it: the constant -1 of `SalesPath.Distance`. */
  ghost predicate StubDistance(o: Oracle)
  {
    forall p :: o.distance(p) == SalesPath.Distance(p)
  }

  /**
   * With the stub distance, a bid on a full target whose recorded distances
   * are those the stub produces (none below -1) evicts only for the last
   * candidate: for any earlier one neither neighbour is nearer than the next
   * candidate, so the bid passes or `Max` throws, and the index is unchanged.
   */
  lemma StubBidsEvictOnlyLast(o: Oracle, idx: Index, path: SalesPath.Path, index: int,
                              paths: seq<SalesPath.Path>, sequence: int)
    requires 0 <= index < |paths| - 1 && HasPoint(path.edge, sequence) && StubDistance(o)
    requires Full(idx, OtherEnd(path.edge, sequence))
    requires idx[OtherEnd(path.edge, sequence)].s0.value.distance >= -1.0
    requires idx[OtherEnd(path.edge, sequence)].s1.value.distance >= -1.0
    ensures var r := BidForPath(o, idx, path, index, paths, sequence);
      r.index == idx && r.info.None?
  {
    var target := OtherEnd(path.edge, sequence);
    var m := Max(o, target, idx[target]);
    assert o.distance(paths[index + 1]) == -1.0;
    if m.Ok? {
      assert SlotOf(idx[target], m.value).value.distance >= -1.0;
      assert SlotOf(idx[target], 1 - m.value).value.distance >= -1.0;
    }
  }

  /**
   * The first position from `ii` on whose candidate the loop for the empty
   * slot `slot` does not skip, or the end of the list.
   */
  function FirstBid(s: Slots, slot: int, paths: seq<SalesPath.Path>, ii: nat): (k: nat)
    requires slot == 0 || slot == 1
    ensures ii <= k && (k <= |paths| || k == ii)
    ensures forall m :: ii <= m < k && m < |paths| ==> IgnorePath(s, 1 - slot, paths[m])
    ensures k < |paths| ==> !IgnorePath(s, 1 - slot, paths[k])
    decreases |paths| - ii
  {
    if ii >= |paths| || !IgnorePath(s, 1 - slot, paths[ii]) then ii
    else FirstBid(s, slot, paths, ii + 1)
  }

  /**
   * One bidding loop of `reservePaths` for the empty slot `slot`: walks the
   * candidates, skipping those that lead to the neighbour in the other slot,
   * and stops at the first bid that answers an entry or raises an exception.
   */
  function BidLoop(o: Oracle, idx: Index, sequence: int, paths: seq<SalesPath.Path>, slot: int, ii: nat): (r: Step)
    requires sequence in idx && (slot == 0 || slot == 1)
    ensures PositiveKeys(idx) ==> PositiveKeys(r.index)
    ensures r.thrown.None? ==> sequence in r.index
    ensures |paths| <= ii ==> r == Step(idx, None, None)
    decreases |paths| - ii
  {
    if ii >= |paths| then Step(idx, None, None)
    else if IgnorePath(idx[sequence], 1 - slot, paths[ii]) then BidLoop(o, idx, sequence, paths, slot, ii + 1)
    else
      var b := BidForPath(o, idx, paths[ii], ii, paths, sequence);
      if b.thrown.Some? || b.info.Some? then
        if b.thrown.None? && sequence !in b.index then Step(b.index, b.info, Some(NullPointer)) else b
      else if sequence !in b.index then Step(b.index, None, Some(NullPointer))
      else BidLoop(o, b.index, sequence, paths, slot, ii + 1)
  }

  /**
   * The loop skips exactly the candidates leading to the neighbour in the
   * other slot, bids on the first one it does not skip, and stops there
   * when that bid answers an entry or throws; otherwise it goes on after it.
   */
  lemma {:induction false} BidLoopTakesFirstAnswer(o: Oracle, idx: Index, sequence: int, paths: seq<SalesPath.Path>,
                                                   slot: int, ii: nat)
    requires sequence in idx && (slot == 0 || slot == 1)
    ensures var k := FirstBid(idx[sequence], slot, paths, ii);
      (k >= |paths| ==> BidLoop(o, idx, sequence, paths, slot, ii) == Step(idx, None, None))
      && (k < |paths| ==> AnswersAt(o, idx, sequence, paths, slot, k, BidLoop(o, idx, sequence, paths, slot, ii)))
    decreases |paths| - ii
  {
    if ii < |paths| && IgnorePath(idx[sequence], 1 - slot, paths[ii]) {
      BidLoopTakesFirstAnswer(o, idx, sequence, paths, slot, ii + 1);
      assert BidLoop(o, idx, sequence, paths, slot, ii) == BidLoop(o, idx, sequence, paths, slot, ii + 1);
      assert FirstBid(idx[sequence], slot, paths, ii) == FirstBid(idx[sequence], slot, paths, ii + 1);
    } else if ii < |paths| {
      BidLoopBids(o, idx, sequence, paths, slot, ii);
    }
  }

  /**
   * The loop's answer `r` is settled by its bid on candidate `k`: a thrown
   * exception or an answered entry ends it there, a bid that answers
   * nothing lets it go on after `k`.
   */
  ghost predicate AnswersAt(o: Oracle, idx: Index, sequence: int, paths: seq<SalesPath.Path>, slot: int, k: nat, r: Step)
    requires sequence in idx && (slot == 0 || slot == 1) && k < |paths|
  {
    var b := BidForPath(o, idx, paths[k], k, paths, sequence);
    (b.thrown.Some? ==> r == b)
    && (b.thrown.None? && sequence !in b.index ==> r.thrown == Some(NullPointer))
    && (b.thrown.None? && b.info.Some? && sequence in b.index ==> r == b)
    && (b.thrown.None? && b.info.None? && sequence in b.index ==>
          r == BidLoop(o, b.index, sequence, paths, slot, k + 1))
  }

  /** A candidate the loop does not skip gets the bid. */
  lemma BidLoopBids(o: Oracle, idx: Index, sequence: int, paths: seq<SalesPath.Path>, slot: int, ii: nat)
    requires sequence in idx && (slot == 0 || slot == 1)
    requires ii < |paths| && !IgnorePath(idx[sequence], 1 - slot, paths[ii])
    ensures AnswersAt(o, idx, sequence, paths, slot, ii, BidLoop(o, idx, sequence, paths, slot, ii))
  {
  }

  /**
   * `reservePaths(sequence, points, paths, pp)`: creates the entry when
   * missing, then runs the bidding loop for slot 0 if it is empty and for
   * slot 1 if it is still empty.
   */
  function ReservePaths(o: Oracle, idx: Index, sequence: int, paths: seq<SalesPath.Path>): (r: Step)
    ensures PositiveKeys(idx) ==> PositiveKeys(r.index)
    ensures r.thrown.None? ==> sequence in r.index
    ensures sequence <= 0 && sequence !in idx ==> r == Step(idx, None, Some(IllegalArgument))
    ensures sequence in idx && !Starving(idx, sequence) ==> r == Step(idx, None, None)
    ensures sequence in idx && idx[sequence].s0.Some? && idx[sequence].s1.None? ==>
      var b := BidLoop(o, idx, sequence, paths, 1, 0);
      r == (if b.thrown.None? then Step(b.index, None, None) else b)
    ensures sequence !in idx && sequence > 0 ==>
      var first := BidLoop(o, idx[sequence := Slots(None, None)], sequence, paths, 0, 0);
      first.thrown.Some? ==> r == first
  {
    var idx0 := if sequence in idx then idx else idx[sequence := Slots(None, None)];
    if sequence !in idx && sequence <= 0 then Step(idx, None, Some(IllegalArgument))
    else
      var first := if idx0[sequence].s0.None? then BidLoop(o, idx0, sequence, paths, 0, 0) else Step(idx0, None, None);
      if first.thrown.Some? then first
      else if first.index[sequence].s1.None? then
        var second := BidLoop(o, first.index, sequence, paths, 1, 0);
        if second.thrown.None? then Step(second.index, None, None) else second
      else Step(first.index, None, None)
  }

  /** A point that still lacks a neighbour. */
  predicate Starving(idx: Index, sequence: int)
  {
    sequence !in idx || idx[sequence].s0.None? || idx[sequence].s1.None?
  }

  /**
   * `checkStarving`: for each point in order, a starving point reserves
   * paths from its sorted list, which must exist and be non-empty; the first
   * exception escapes.
   */
  function CheckStarving(o: Oracle, idx: Index, points: seq<int>): (r: Step)
    ensures PositiveKeys(idx) ==> PositiveKeys(r.index)
    ensures (forall i :: 0 <= i < |points| ==> !Starving(idx, points[i])) ==> r == Step(idx, None, None)
    decreases |points|
  {
    if |points| == 0 then Step(idx, None, None)
    else
      var sequence := points[0];
      if !Starving(idx, sequence) then CheckStarving(o, idx, points[1..])
      else
        match o.sortedPaths(sequence)
        case None => Step(idx, None, Some(IllegalState))
        case Some(paths) =>
          if |paths| == 0 then Step(idx, None, Some(IllegalState))
          else
            var rp := ReservePaths(o, idx, sequence, paths);
            if rp.thrown.Some? then rp else CheckStarving(o, rp.index, points[1..])
  }

  /**
   * The loop of `checkComplete` over the looked-up keys: the first key whose
   * entry is missing or lacks a neighbour answers false at once.
   */
  function CompleteLoop(idx: Index, keys: seq<int>): (b: bool)
  {
    if |keys| == 0 then true
    else
      var pin := GetPoints(idx, keys[0]);
      if pin.None? || pin.value.s0.None? || pin.value.s1.None? then false
      else CompleteLoop(idx, keys[1..])
  }

  /** The loop answers true exactly when no looked-up key is starving. */
  lemma {:induction false} CompleteLoopIff(idx: Index, keys: seq<int>)
    ensures CompleteLoop(idx, keys) <==> forall i :: 0 <= i < |keys| ==> !Starving(idx, keys[i])
  {
    if |keys| > 0 {
      CompleteLoopIff(idx, keys[1..]);
      if !Starving(idx, keys[0]) {
        assert forall i :: 1 <= i < |keys| ==> keys[i] == keys[1..][i - 1];
      }
    }
  }

  /** The positions 0 to n-1, which `checkComplete` as written looks up. */
  function Positions(n: nat): (s: seq<int>)
    ensures |s| == n && forall i :: 0 <= i < n ==> s[i] == i
  {
    seq(n, i => i)
  }

  /** `checkComplete` as written: it looks up the entry keyed by each position `ii`. */
  function CheckCompleteAsWritten(idx: Index, points: seq<int>): bool
  {
    CompleteLoop(idx, Positions(|points|))
  }

  /** `checkComplete` as evidently intended: it looks up each point's own sequence. */
  function CheckComplete(idx: Index, points: seq<int>): bool
  {
    CompleteLoop(idx, points)
  }

  /**
   * The test as written never succeeds on an index built by `put`, which
   * never holds key 0: position 0 is always looked up and never found.
   */
  lemma CheckCompleteAsWrittenNeverHolds(idx: Index, points: seq<int>)
    requires PositiveKeys(idx) && |points| > 0
    ensures !CheckCompleteAsWritten(idx, points)
  {
    assert GetPoints(idx, Positions(|points|)[0]).None?;
  }

  /**
   * The corrected test succeeds exactly when no point is starving; then
   * `checkStarving` has nothing left to do.
   */
  lemma CheckCompleteIffNothingStarves(o: Oracle, idx: Index, points: seq<int>)
    ensures CheckComplete(idx, points) <==> forall i :: 0 <= i < |points| ==> !Starving(idx, points[i])
    ensures CheckComplete(idx, points) ==> CheckStarving(o, idx, points) == Step(idx, None, None)
  {
    CompleteLoopIff(idx, points);
  }

  /** Every index the helpers build from an empty one has only positive keys. */
  lemma StarvingPassKeepsPositiveKeys(o: Oracle, size: int, points: seq<int>)
    requires New(size).Ok?
    ensures PositiveKeys(CheckStarving(o, New(size).value, points).index)
    ensures |points| > 0 ==> !CheckCompleteAsWritten(CheckStarving(o, New(size).value, points).index, points)
  {
    var r := CheckStarving(o, New(size).value, points);
    if |points| > 0 {
      CheckCompleteAsWrittenNeverHolds(r.index, points);
    }
  }
}
