/**
 * `lazyman.v2.RunIteratorV3`: an exhaustive search for a closed tour.  From
 * every start point it extends a route through unvisited targets, and once
 * the route holds every point it closes the tour by coming back to the
 * start.  The journey loaded over a closed tour is judged, and the shortest
 * complete one is kept.
 *
 * Each step works on fresh copies of the points (`new Point(p)`), and the
 * closing test compares the candidate with the route's first point by
 * reference.  The model gives every copy its own allocation tag, so that
 * test is the equality of (sequence, tag) pairs.
 */
module V2RunIteratorV3 {
  import opened Common
  import V2Journey

  /**
   * What the search sees of the cache: `n` points with sequences 0 to n-1,
   * the targets each point offers, and the verdict of loading a journey over
   * a closed tour (whether it is one route, and its distance).
   */
  datatype Env = Env(n: nat, targets: int -> seq<int>, judge: seq<int> -> Verdict)

  /** A loaded journey, as the search compares them. */
  datatype Verdict = Verdict(complete: bool, distance: real)

  /** A point object: its sequence and the allocation that made it. */
  datatype Ref = Ref(sequence: int, tag: nat)

  /** Every target a point offers is one of the `n` points. */
  ghost predicate Targets(env: Env)
  {
    forall x, k :: 0 <= k < |env.targets(x)| ==> 0 <= env.targets(x)[k] < env.n
  }

  /** The sequences 0 to n-1. */
  function Ids(n: nat): (s: set<int>)
    ensures forall i :: i in s <==> 0 <= i < n
  {
    if n == 0 then {} else Ids(n - 1) + {n - 1}
  }

  /**
   * The update `run`, `run(start)` and `route` make to their best journey:
   * the first complete candidate is taken, and later only a strictly
   * shorter complete one replaces it.
   */
  function Keep(best: Option<Verdict>, j: Option<Verdict>): (r: Option<Verdict>)
    requires best.Some? ==> best.value.complete
    ensures r == best || r == j
    ensures r.Some? ==> r.value.complete
    ensures best.Some? ==> r.Some? && r.value.distance <= best.value.distance
    ensures j.Some? && j.value.complete ==> r.Some? && r.value.distance <= j.value.distance
  {
    if best.None? then (if j.Some? && j.value.complete then j else None)
    else if j.Some? && j.value.complete && j.value.distance < best.value.distance then j
    else best
  }

  /** The sequences of a route of point objects. */
  function Sequences(route: seq<Ref>): (s: seq<int>)
    ensures |s| == |route|
    ensures forall i :: 0 <= i < |route| ==> s[i] == route[i].sequence
  {
    if |route| == 0 then [] else Sequences(route[..|route| - 1]) + [route[|route| - 1].sequence]
  }

  /** Every object of the route was allocated before the tag `alloc`. */
  predicate Older(route: seq<Ref>, alloc: nat)
  {
    forall i :: 0 <= i < |route| ==> route[i].tag < alloc
  }

  /**
   * `addPoint(source, target, route, visited)` as written.  A visited target
   * closes the tour only when the route is full and the target is the very
   * object the route starts with; an unvisited target is linked, appended
   * and searched on from.  The target is always a copy made after every
   * object of the route, so the closing test never holds and no journey is
   * ever produced.  The second result is the next free allocation tag.
   */
  function AddPointAsWritten(env: Env, target: Ref, route: seq<Ref>, visited: set<int>, alloc: nat)
    : (r: (Option<Verdict>, nat))
    requires Targets(env) && visited <= Ids(env.n) && 0 <= target.sequence < env.n
    requires |route| > 0 && Older(route, target.tag) && target.tag < alloc
    ensures r.0.None? && r.1 >= alloc
    decreases |Ids(env.n) - visited|, 0, 0
  {
    if target.sequence in visited then
      if |route| == env.n && route[0] == target then
        (Some(env.judge(Sequences(route + [target]))), alloc)
      else (None, alloc)
    else
      V2Journey.VisitOne(Ids(env.n), visited, target.sequence);
      RouteAsWritten(env, target, visited + {target.sequence}, route + [target], alloc, 0, None)
  }

  /**
   * `route(current, visited, route)` as written, from the `k`-th target of
   * `current` on, with `best` the journey kept so far: each target is tried
   * on alloc copies of `current` and of the target.
   */
  function RouteAsWritten(env: Env, current: Ref, visited: set<int>, route: seq<Ref>, alloc: nat, k: nat,
                          best: Option<Verdict>): (r: (Option<Verdict>, nat))
    requires Targets(env) && visited <= Ids(env.n)
    requires |route| > 0 && Older(route, alloc) && best.None?
    ensures r.0.None? && r.1 >= alloc
    decreases |Ids(env.n) - visited|, 1, |env.targets(current.sequence)| - k
  {
    var ts := env.targets(current.sequence);
    if k >= |ts| then (best, alloc)
    else
      var np := Ref(ts[k], alloc + 1);
      var j := AddPointAsWritten(env, np, route, visited, alloc + 2);
      RouteAsWritten(env, current, visited, route, j.1, k + 1, Keep(best, j.0))
  }

  /** `run(start)` as written, from the `k`-th target of the start on. */
  function StartAsWritten(env: Env, start: int, alloc: nat, k: nat, best: Option<Verdict>): (r: (Option<Verdict>, nat))
    requires Targets(env) && 0 <= start < env.n && best.None?
    ensures r.0.None? && r.1 >= alloc
    decreases |env.targets(start)| - k
  {
    var ts := env.targets(start);
    if k >= |ts| then (best, alloc)
    else
      var s := Ref(start, alloc);
      var np := Ref(ts[k], alloc + 1);
      var j := AddPointAsWritten(env, np, [s], {start}, alloc + 2);
      StartAsWritten(env, start, j.1, k + 1, Keep(best, j.0))
  }

  /** `run()` as written, over the starts `i` to n-1: it never keeps a journey. */
  function RunAsWritten(env: Env, i: nat, alloc: nat, best: Option<Verdict>): (r: Option<Verdict>)
    requires Targets(env) && best.None?
    ensures r.None?
    decreases env.n - i
  {
    if i >= env.n then best
    else
      var j := StartAsWritten(env, i, alloc, 0, None);
      RunAsWritten(env, i + 1, j.1, Keep(best, j.0))
  }

  /**
   * A closed tour over all `n` points: each point once, back to the first,
   * every step to a target the previous point offers.
   */
  ghost predicate Tour(env: Env, c: seq<int>)
  {
    env.n > 0 && |c| == env.n + 1 && c[0] == c[env.n] &&
    (forall i :: 0 <= i < env.n ==> 0 <= c[i] < env.n) &&
    (forall i, j :: 0 <= i < j < env.n ==> c[i] != c[j]) &&
    (forall i :: 0 <= i < env.n ==> c[i + 1] in env.targets(c[i]))
  }

  /** A route of the search: distinct points in range, each a target of the one before. */
  ghost predicate Walk(env: Env, route: seq<int>, visited: set<int>)
  {
    (forall i :: 0 <= i < |route| ==> 0 <= route[i] < env.n) &&
    (forall i, j :: 0 <= i < j < |route| ==> route[i] != route[j]) &&
    (forall i :: 0 <= i < |route| - 1 ==> route[i + 1] in env.targets(route[i])) &&
    visited == (set x | x in route)
  }

  /** The verdict is that of a complete journey over a closed tour. */
  ghost predicate Found(env: Env, v: Option<Verdict>)
  {
    v.Some? ==> v.value.complete && exists c :: Tour(env, c) && env.judge(c) == v.value
  }

  /** `c` is a tour with a complete journey that starts along `route` and goes on to `next`. */
  ghost predicate Completes(env: Env, c: seq<int>, route: seq<int>, next: int)
  {
    Tour(env, c) && |route| <= env.n && c[..|route|] == route && c[|route|] == next && env.judge(c).complete
  }

  /**
   * `r` is a complete verdict no longer than the journey of any tour that
   * starts along `route` and goes on to one of `nexts`.
   */
  ghost predicate Covers(env: Env, r: Option<Verdict>, route: seq<int>, nexts: seq<int>)
  {
    forall c, x :: x in nexts && Completes(env, c, route, x) ==>
      r.Some? && r.value.complete && r.value.distance <= env.judge(c).distance
  }

  /** Keeping the better of two found verdicts gives a found verdict. */
  lemma KeepFound(env: Env, best: Option<Verdict>, j: Option<Verdict>)
    requires best.Some? ==> best.value.complete
    requires Found(env, best) && Found(env, j)
    ensures Found(env, Keep(best, j))
  {
  }

  /** A full route closed back to its start is a tour. */
  lemma CloseIsTour(env: Env, route: seq<int>, visited: set<int>, target: int)
    requires |route| == env.n > 0 && Walk(env, route, visited)
    requires route[0] == target && target in env.targets(route[|route| - 1])
    ensures Tour(env, route + [target])
  {
    var c := route + [target];
    forall i | 0 <= i < env.n
      ensures c[i + 1] in env.targets(c[i])
    {
      if i < env.n - 1 {
        assert c[i + 1] == route[i + 1] && c[i] == route[i];
      }
    }
  }

  /** Appending an unvisited target of the last point extends the route. */
  lemma ExtendWalk(env: Env, route: seq<int>, visited: set<int>, target: int)
    requires |route| > 0 && Walk(env, route, visited)
    requires 0 <= target < env.n && target !in visited && target in env.targets(route[|route| - 1])
    ensures Walk(env, route + [target], visited + {target})
  {
    var r := route + [target];
    assert forall i :: 0 <= i < |route| ==> r[i] == route[i];
    assert (set x | x in r) == (set x | x in route) + {target};
  }

  /**
   * `addPoint` with the closing test comparing sequences, as the search
   * evidently intends: a full route whose start the target is closes into
   * a tour; an unvisited target is appended and searched on from.
   */
  function AddPoint(env: Env, target: int, route: seq<int>, visited: set<int>): (r: Option<Verdict>)
    requires Targets(env) && |route| > 0 && Walk(env, route, visited) && visited <= Ids(env.n)
    requires 0 <= target < env.n && target in env.targets(route[|route| - 1])
    ensures r.Some? ==> exists c :: Tour(env, c) && env.judge(c) == r.value
    ensures Covers(env, r, route, [target])
    decreases |Ids(env.n) - visited|, 0, 0
  {
    if target in visited then
      var r := Close(env, target, route, visited);
      CloseCovers(env, target, route, visited, r);
      r
    else
      V2Journey.VisitOne(Ids(env.n), visited, target);
      ExtendWalk(env, route, visited, target);
      var r := Search(env, target, visited + {target}, route + [target], 0, None);
      ExtendCovers(env, target, route, visited, r);
      r
  }

  /**
   * A tour that starts along a route and goes on to a point the route has
   * visited is the route closed at its start.
   */
  lemma ClosingTour(env: Env, target: int, route: seq<int>, visited: set<int>, c: seq<int>)
    requires Walk(env, route, visited) && target in visited
    requires Tour(env, c) && |route| <= env.n && c[..|route|] == route && c[|route|] == target
    ensures |route| == env.n && route[0] == target && c == route + [target]
  {
    var i :| 0 <= i < |route| && route[i] == target;
    assert c[i] == route[i];
    assert |route| == env.n && i == 0;
    assert c == route + [target];
  }

  /** Closing covers the only tour that goes on to a visited target. */
  lemma CloseCovers(env: Env, target: int, route: seq<int>, visited: set<int>, r: Option<Verdict>)
    requires |route| > 0 && Walk(env, route, visited) && target in visited
    requires target in env.targets(route[|route| - 1])
    requires r == Close(env, target, route, visited)
    ensures Covers(env, r, route, [target])
  {
    forall c, x | x in [target] && Completes(env, c, route, x)
      ensures r.Some? && r.value.complete && r.value.distance <= env.judge(c).distance
    {
      ClosingTour(env, target, route, visited, c);
    }
  }

  /**
   * A tour that starts along a route and goes on to an unvisited target
   * starts along the extended route and goes on to a target of that target.
   */
  lemma ExtendingTour(env: Env, target: int, route: seq<int>, visited: set<int>, c: seq<int>)
    requires Walk(env, route, visited) && target !in visited
    requires Completes(env, c, route, target)
    ensures Completes(env, c, route + [target], c[|route| + 1])
    ensures c[|route| + 1] in env.targets(target)
  {
    assert |route| < env.n;
    assert c[..|route| + 1] == route + [target];
  }

  /** Searching on from an unvisited target covers every tour that goes on to it. */
  lemma ExtendCovers(env: Env, target: int, route: seq<int>, visited: set<int>, r: Option<Verdict>)
    requires Walk(env, route, visited) && target !in visited
    requires Covers(env, r, route + [target], env.targets(target)[0..])
    ensures Covers(env, r, route, [target])
  {
    forall c, x | x in [target] && Completes(env, c, route, x)
      ensures r.Some? && r.value.complete && r.value.distance <= env.judge(c).distance
    {
      ExtendingTour(env, target, route, visited, c);
      assert c[|route| + 1] in env.targets(target)[0..];
    }
  }

  /**
   * One turn of a search loop: the verdict kept after the turn covers the
   * tours through the turn's target as well as those through later ones.
   */
  lemma TurnCovers(env: Env, route: seq<int>, ts: seq<int>, k: nat, best: Option<Verdict>, j: Option<Verdict>,
                   r: Option<Verdict>)
    requires k < |ts| && (best.Some? ==> best.value.complete)
    requires Covers(env, j, route, [ts[k]]) && Covers(env, r, route, ts[k + 1..])
    requires Keep(best, j).Some? ==> r.Some? && r.value.distance <= Keep(best, j).value.distance
    requires r.Some? ==> r.value.complete
    ensures Covers(env, r, route, ts[k..])
  {
    forall c, x | x in ts[k..] && Completes(env, c, route, x)
      ensures r.Some? && r.value.complete && r.value.distance <= env.judge(c).distance
    {
      if x == ts[k] {
        assert x in [ts[k]];
      } else {
        assert x in ts[k + 1..] by {
          var m :| k <= m < |ts| && ts[m] == x;
          assert m != k;
          assert ts[k + 1..][m - k - 1] == x;
        }
      }
    }
  }

  /** A visited target closes the route into a tour exactly when the route is full and starts with it. */
  function Close(env: Env, target: int, route: seq<int>, visited: set<int>): (r: Option<Verdict>)
    requires |route| > 0 && Walk(env, route, visited)
    requires target in env.targets(route[|route| - 1])
    ensures r.Some? <==> |route| == env.n && route[0] == target
    ensures r.Some? ==> exists c :: Tour(env, c) && env.judge(c) == r.value
  {
    if |route| == env.n && route[0] == target then
      CloseIsTour(env, route, visited, target);
      Some(env.judge(route + [target]))
    else None
  }

  /** `route(current, visited, route)` from the `k`-th target of `current` on, with `best` kept so far. */
  function Search(env: Env, current: int, visited: set<int>, route: seq<int>, k: nat, best: Option<Verdict>)
    : (r: Option<Verdict>)
    requires Targets(env) && |route| > 0 && Walk(env, route, visited) && visited <= Ids(env.n)
    requires current == route[|route| - 1] && k <= |env.targets(current)|
    requires best.Some? ==> best.value.complete
    requires Found(env, best)
    ensures Found(env, r)
    ensures best.Some? ==> r.Some? && r.value.distance <= best.value.distance
    ensures Covers(env, r, route, env.targets(current)[k..])
    decreases |Ids(env.n) - visited|, 1, |env.targets(current)| - k
  {
    var ts := env.targets(current);
    if k >= |ts| then best
    else
      var j := AddPoint(env, ts[k], route, visited);
      var kept := Keep(best, j);
      KeepFound(env, best, if j.Some? && j.value.complete then j else None);
      assert kept == Keep(best, if j.Some? && j.value.complete then j else None);
      var r := Search(env, current, visited, route, k + 1, kept);
      TurnCovers(env, route, ts, k, best, j, r);
      r
  }

  /** `run(start)` from the `k`-th target of the start on. */
  function Start(env: Env, start: int, k: nat, best: Option<Verdict>): (r: Option<Verdict>)
    requires Targets(env) && 0 <= start < env.n && k <= |env.targets(start)|
    requires best.Some? ==> best.value.complete
    requires Found(env, best)
    ensures Found(env, r)
    ensures best.Some? ==> r.Some? && r.value.distance <= best.value.distance
    ensures Covers(env, r, [start], env.targets(start)[k..])
    decreases |env.targets(start)| - k
  {
    var ts := env.targets(start);
    if k >= |ts| then best
    else
      assert Walk(env, [start], {start});
      var j := AddPoint(env, ts[k], [start], {start});
      var kept := Keep(best, j);
      KeepFound(env, best, if j.Some? && j.value.complete then j else None);
      assert kept == Keep(best, if j.Some? && j.value.complete then j else None);
      var r := Start(env, start, k + 1, kept);
      TurnCovers(env, [start], ts, k, best, j, r);
      r
  }

  /**
   * `run()` over the starts `i` to n-1: the journey it keeps is complete,
   * loaded over a closed tour of all the points, and no longer than the one
   * it started with, and no longer than the journey of any complete tour
   * that starts at one of those starts.
   */
  function Run(env: Env, i: nat, best: Option<Verdict>): (r: Option<Verdict>)
    requires Targets(env)
    requires best.Some? ==> best.value.complete
    requires Found(env, best)
    ensures Found(env, r)
    ensures best.Some? ==> r.Some? && r.value.distance <= best.value.distance
    ensures forall c :: Tour(env, c) && i <= c[0] && env.judge(c).complete ==>
      r.Some? && r.value.distance <= env.judge(c).distance
    decreases env.n - i
  {
    if i >= env.n then best
    else
      var j := Start(env, i, 0, None);
      KeepFound(env, best, j);
      var r := Run(env, i + 1, Keep(best, j));
      StartCovers(env, i, best, j, r);
      r
  }

  /** The starts `i` on are covered once start `i` is, and every later start is. */
  lemma StartCovers(env: Env, i: nat, best: Option<Verdict>, j: Option<Verdict>, r: Option<Verdict>)
    requires i < env.n && (best.Some? ==> best.value.complete)
    requires Covers(env, j, [i], env.targets(i)[0..])
    requires Keep(best, j).Some? ==> r.Some? && r.value.distance <= Keep(best, j).value.distance
    requires forall c :: Tour(env, c) && i + 1 <= c[0] && env.judge(c).complete ==>
      r.Some? && r.value.distance <= env.judge(c).distance
    ensures forall c :: Tour(env, c) && i <= c[0] && env.judge(c).complete ==>
      r.Some? && r.value.distance <= env.judge(c).distance
  {
    forall c | Tour(env, c) && i <= c[0] && env.judge(c).complete
      ensures r.Some? && r.value.distance <= env.judge(c).distance
    {
      if c[0] == i {
        assert c[..1] == [i];
        assert c[1] in env.targets(i)[0..];
        assert Completes(env, c, [i], c[1]);
      }
    }
  }
}
