/**
 * `lazyman.core.model.ClosedRing`: a closed ring that collects merge
 * candidates towards the other closed rings it may connect with, and hands
 * them out sorted by delta.
 *
 * The candidates are `RingProcessor.Connect` values and are ordered by
 * `ConnectSorter`.  `data.findMinPaths(p1, p2)` is the parameter `find`,
 * which may answer null or a pair with null entries; `data.togglePath`
 * calls are returned as a log.  A closed ring is built from a ring by
 * `Rings.Copy(source, true)`.
 */
module ClosedRings {
  import opened Common
  import opened Edges
  import Order
  import Rings
  import RingProcessor

  /** `data.findMinPaths`: for two paths, null or the two paths of a reconnection, either of which may be null. */
  type Finder = (Edge, Edge) -> Option<(Option<Edge>, Option<Edge>)>

  /** The reconnection of two paths was found with both of its paths. */
  predicate Both(o: Option<(Option<Edge>, Option<Edge>)>)
  {
    o.Some? && o.value.0.Some? && o.value.1.Some?
  }

  /** The candidate joining `self` to `target` through the reconnection of `sp` and `tp`. */
  function Candidate(self: Rings.Ring, target: Rings.Ring, sp: Edge, tp: Edge, find: Finder, dist: Edge -> real)
    : (c: RingProcessor.Connect)
    requires Both(find(sp, tp))
    ensures c.source == self && c.target == Some(target) && c.sourcePath == sp && c.targetPath == Some(tp)
    ensures c.p1.Some? && c.p2.Some?
    ensures RingProcessor.OpenDelta(c, dist) - dist(tp) == c.delta
  {
    var m := find(sp, tp).value;
    RingProcessor.Connect(self, Some(target), m.0, m.1, sp, Some(tp),
                          (dist(m.0.value) + dist(m.1.value)) - (dist(sp) + dist(tp)))
  }

  /** A candidate of `self` towards `target`: one of `self`'s paths against one of `target`'s, found in full. */
  ghost predicate IsCandidate(c: RingProcessor.Connect, self: Rings.Ring, target: Rings.Ring, find: Finder, dist: Edge -> real)
  {
    c.sourcePath in self.paths && c.targetPath.Some? && c.targetPath.value in target.paths &&
    Both(find(c.sourcePath, c.targetPath.value)) &&
    c == Candidate(self, target, c.sourcePath, c.targetPath.value, find, dist)
  }

  /** The inner loop: the candidates of one path of `self` against the target paths found in full, in order. */
  function RowCandidates(self: Rings.Ring, target: Rings.Ring, sp: Edge, tps: seq<Edge>, find: Finder, dist: Edge -> real)
    : (r: seq<RingProcessor.Connect>)
    ensures |r| <= |tps|
    ensures forall c :: c in r ==>
      (c.sourcePath == sp && c.targetPath.Some? && c.targetPath.value in tps &&
       Both(find(sp, c.targetPath.value)) && c == Candidate(self, target, sp, c.targetPath.value, find, dist))
    ensures forall j :: 0 <= j < |tps| && Both(find(sp, tps[j])) ==> Candidate(self, target, sp, tps[j], find, dist) in r
  {
    if |tps| == 0 then []
    else
      var rest := RowCandidates(self, target, sp, tps[1..], find, dist);
      assert forall j :: 1 <= j < |tps| ==> tps[j] == tps[1..][j - 1];
      if Both(find(sp, tps[0])) then [Candidate(self, target, sp, tps[0], find, dist)] + rest else rest
  }

  /** The outer loop: the rows of `self`'s paths laid end to end. */
  function RingCandidates(self: Rings.Ring, target: Rings.Ring, sps: seq<Edge>, find: Finder, dist: Edge -> real)
    : (r: seq<RingProcessor.Connect>)
    ensures |r| <= |sps| * |target.paths|
    ensures forall c :: c in r ==>
      (c.sourcePath in sps && c.targetPath.Some? && c.targetPath.value in target.paths &&
       Both(find(c.sourcePath, c.targetPath.value)) &&
       c == Candidate(self, target, c.sourcePath, c.targetPath.value, find, dist))
    ensures forall i, j :: 0 <= i < |sps| && 0 <= j < |target.paths| && Both(find(sps[i], target.paths[j])) ==>
      Candidate(self, target, sps[i], target.paths[j], find, dist) in r
  {
    if |sps| == 0 then []
    else
      var row := RowCandidates(self, target, sps[0], target.paths, find, dist);
      var rest := RingCandidates(self, target, sps[1..], find, dist);
      RowsBound(|sps|, |target.paths|, |row|, |rest|);
      forall i, j | 0 <= i < |sps| && 0 <= j < |target.paths| && Both(find(sps[i], target.paths[j]))
        ensures Candidate(self, target, sps[i], target.paths[j], find, dist) in row + rest
      {
        if i > 0 {
          assert sps[i] == sps[1..][i - 1];
        }
      }
      row + rest
  }

  /** A row of at most `b` followed by `a - 1` rows of at most `b` each holds at most `a` rows' worth. */
  lemma RowsBound(a: nat, b: nat, row: nat, rest: nat)
    requires a > 0 && row <= b && rest <= (a - 1) * b
    ensures row + rest <= a * b
  {
    assert (a - 1) * b + b == a * b;
  }

  /** The rings `self` collects candidates towards: another number, closed, and allowed by the nesting rule. */
  predicate Connectable(self: Rings.Ring, r: Rings.Ring)
  {
    r.number != self.number && r.closed && Rings.CanConnect(self, r)
  }

  /** Every candidate in `cs` joins `self` to a connectable ring of `rings` through a pair found in full. */
  ghost predicate Sound(self: Rings.Ring, rings: seq<Rings.Ring>, find: Finder, dist: Edge -> real,
                        cs: seq<RingProcessor.Connect>)
  {
    forall c :: c in cs ==>
      (c.target.Some? && c.target.value in rings && Connectable(self, c.target.value) &&
       IsCandidate(c, self, c.target.value, find, dist))
  }

  /** Every pair of paths of `self` and of a connectable ring of `rings` found in full has its candidate in `cs`. */
  ghost predicate Complete(self: Rings.Ring, rings: seq<Rings.Ring>, find: Finder, dist: Edge -> real,
                           cs: seq<RingProcessor.Connect>)
  {
    forall t, i, j ::
      (t in rings && Connectable(self, t) && 0 <= i < |self.paths| && 0 <= j < |t.paths| &&
       Both(find(self.paths[i], t.paths[j]))) ==>
      Candidate(self, t, self.paths[i], t.paths[j], find, dist) in cs
  }

  /** Both paths of the reconnection of every candidate in `cs` are marked usable in `log`. */
  ghost predicate Logged(cs: seq<RingProcessor.Connect>, log: seq<RingProcessor.Toggle>)
  {
    forall c :: c in cs ==>
      (c.p1.Some? && c.p2.Some? &&
       RingProcessor.Toggle(c.p1.value.a, c.p1.value.b, true) in log &&
       RingProcessor.Toggle(c.p2.value.a, c.p2.value.b, true) in log)
  }

  /**
   * `computeConnections(connections, data, rings)`: for each connectable
   * ring in turn, the candidates of every pair of paths whose reconnection
   * is found in full are appended to `targets`, and the reconnection's two
   * paths are marked usable.  The registry argument is not used.
   */
  function ComputeConnections(self: Rings.Ring, rings: seq<Rings.Ring>, find: Finder, dist: Edge -> real,
                              targets: seq<RingProcessor.Connect>, toggles: seq<RingProcessor.Toggle>)
    : (r: (seq<RingProcessor.Connect>, seq<RingProcessor.Toggle>))
    ensures targets <= r.0 && toggles <= r.1
    ensures Sound(self, rings, find, dist, r.0[|targets|..])
    ensures Complete(self, rings, find, dist, r.0)
    ensures forall x :: x in r.1[|toggles|..] ==> x.usable
    ensures Logged(r.0[|targets|..], r.1)
    decreases |rings|
  {
    if |rings| == 0 then (targets, toggles)
    else
      var t := rings[0];
      var cs := if Connectable(self, t) then RingCandidates(self, t, self.paths, find, dist) else [];
      var tg := RingProcessor.Toggles(cs, true);
      var r := ComputeConnections(self, rings[1..], find, dist, targets + cs, toggles + tg);
      CollectedSound(self, rings, find, dist, targets, cs, r.0);
      CollectedComplete(self, rings, find, dist, targets, cs, r.0);
      CollectedUsable(toggles, tg, r.1);
      CollectedLogged(targets, cs, toggles, r.0, r.1);
      r
  }

  /** The first ring's candidates are sound, so the whole collection is. */
  lemma CollectedSound(self: Rings.Ring, rings: seq<Rings.Ring>, find: Finder, dist: Edge -> real,
                       targets: seq<RingProcessor.Connect>, cs: seq<RingProcessor.Connect>, all: seq<RingProcessor.Connect>)
    requires |rings| > 0
    requires cs == if Connectable(self, rings[0]) then RingCandidates(self, rings[0], self.paths, find, dist) else []
    requires targets + cs <= all
    requires Sound(self, rings[1..], find, dist, all[|targets + cs|..])
    ensures Sound(self, rings, find, dist, all[|targets|..])
  {
    assert all[|targets|..] == cs + all[|targets + cs|..] by {
      assert all[..|targets + cs|] == targets + cs;
    }
    assert rings[0] in rings;
    assert forall x :: x in rings[1..] ==> x in rings;
  }

  /** The first ring's candidates cover its pairs, so the whole collection covers every ring. */
  lemma CollectedComplete(self: Rings.Ring, rings: seq<Rings.Ring>, find: Finder, dist: Edge -> real,
                          targets: seq<RingProcessor.Connect>, cs: seq<RingProcessor.Connect>, all: seq<RingProcessor.Connect>)
    requires |rings| > 0
    requires cs == if Connectable(self, rings[0]) then RingCandidates(self, rings[0], self.paths, find, dist) else []
    requires targets + cs <= all
    requires Complete(self, rings[1..], find, dist, all)
    ensures Complete(self, rings, find, dist, all)
  {
    forall t, i, j | t in rings && Connectable(self, t) && 0 <= i < |self.paths| && 0 <= j < |t.paths| &&
      Both(find(self.paths[i], t.paths[j]))
      ensures Candidate(self, t, self.paths[i], t.paths[j], find, dist) in all
    {
      if t == rings[0] {
        var c := Candidate(self, t, self.paths[i], t.paths[j], find, dist);
        assert c in cs;
        var k :| 0 <= k < |cs| && cs[k] == c;
        assert all[|targets| + k] == (targets + cs)[|targets| + k];
      } else {
        var k :| 0 <= k < |rings| && rings[k] == t;
        assert rings[1..][k - 1] == t;
      }
    }
  }

  /** The toggles of one ring are all `true`, so every toggle the collection adds is. */
  lemma CollectedUsable(toggles: seq<RingProcessor.Toggle>, tg: seq<RingProcessor.Toggle>, all: seq<RingProcessor.Toggle>)
    requires forall x :: x in tg ==> x.usable
    requires toggles + tg <= all
    requires forall x :: x in all[|toggles + tg|..] ==> x.usable
    ensures forall x :: x in all[|toggles|..] ==> x.usable
  {
    assert all[|toggles|..] == tg + all[|toggles + tg|..] by {
      assert all[..|toggles + tg|] == toggles + tg;
    }
  }

  /** The first ring's reconnections are toggled right after it, so every candidate's are logged. */
  lemma CollectedLogged(targets: seq<RingProcessor.Connect>, cs: seq<RingProcessor.Connect>,
                        toggles: seq<RingProcessor.Toggle>,
                        all: seq<RingProcessor.Connect>, log: seq<RingProcessor.Toggle>)
    requires forall c :: c in cs ==> c.p1.Some? && c.p2.Some?
    requires targets + cs <= all && toggles + RingProcessor.Toggles(cs, true) <= log
    requires Logged(all[|targets + cs|..], log)
    ensures Logged(all[|targets|..], log)
  {
    var tg := RingProcessor.Toggles(cs, true);
    assert all[|targets|..] == cs + all[|targets + cs|..] by {
      assert all[..|targets + cs|] == targets + cs;
    }
    forall c | c in cs
      ensures RingProcessor.Toggle(c.p1.value.a, c.p1.value.b, true) in log
      ensures RingProcessor.Toggle(c.p2.value.a, c.p2.value.b, true) in log
    {
      assert RingProcessor.Toggle(c.p1.value.a, c.p1.value.b, true) in tg;
      assert RingProcessor.Toggle(c.p2.value.a, c.p2.value.b, true) in tg;
      forall x | x in tg ensures x in log {
        var k :| 0 <= k < |tg| && tg[k] == x;
        assert log[|toggles| + k] == (toggles + tg)[|toggles| + k];
      }
    }
  }

  /** `delta` as a sort key. */
  function DeltaKey(): RingProcessor.Connect -> real
  {
    (c: RingProcessor.Connect) => c.delta
  }

  /**
   * `getSortedConnects()`: the collected candidates in ascending delta, by
   * `List.sort` with `ConnectSorter`, which on non-null candidates has the
   * sign of their delta difference; an empty list is left as it is.
   */
  function GetSortedConnects(targets: seq<RingProcessor.Connect>): (r: seq<RingProcessor.Connect>)
    ensures multiset(r) == multiset(targets)
    ensures forall i, j :: 0 <= i < j < |r| ==> r[i].delta <= r[j].delta
  {
    if |targets| == 0 then targets else Order.SortBy(targets, DeltaKey())
  }

  /**
   * The sorted candidates are in the comparator's order, and the first one
   * is the earliest collected candidate of least delta.
   */
  lemma SortedConnectsFollowSorter(targets: seq<RingProcessor.Connect>)
    ensures var r := GetSortedConnects(targets);
      forall i, j :: 0 <= i < j < |r| ==> RingProcessor.ConnectSorter(Some(r[i]), Some(r[j])) <= 0
    ensures |targets| > 0 ==> GetSortedConnects(targets)[0] == targets[Order.FirstLeast(targets, DeltaKey())]
  {
    var r := GetSortedConnects(targets);
    forall i, j | 0 <= i < j < |r| ensures RingProcessor.ConnectSorter(Some(r[i]), Some(r[j])) <= 0 {
      assert r[i].delta <= r[j].delta;
    }
    if |targets| > 0 {
      Order.SortByHeadIsFirstLeast(targets, DeltaKey());
    }
  }
}
