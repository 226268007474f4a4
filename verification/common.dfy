/**
 * Shared vocabulary: optional values for Java's nullable references, the
 * exceptions the code raises, and Java's narrowing of a double to an int.
 */
module Common {

  /** A Java reference that may be null. */
  datatype Option<T> = None | Some(value: T)

  /** The exception a Java call ends with. */
  datatype Error =
    | IllegalArgument   // Preconditions.checkArgument, IllegalArgumentException
    | IllegalState      // Preconditions.checkState, plain Exception
    | IndexOutOfBounds  // ArrayIndexOutOfBoundsException
    | NullPointer       // a dereference of null
    | Runtime           // RuntimeException thrown on purpose

  /** The outcome of a Java call that either returns a value or throws. */
  datatype Result<T> = Ok(value: T) | Fail(error: Error)

  const INT_MIN: int := -0x8000_0000
  const INT_MAX: int := 0x7fff_ffff

  /** `Double.MAX_VALUE`, the largest finite double: 2^1024 - 2^971. */
  const MAX_DOUBLE: real := 179769313486231570814527423731704356798070567525844996598917476803157260780028538760589558632766878171540458953514382464234321326889464182768467546703537516986049910576551282076245490090389328944075868508455133942304583236903222948165808559332123348274797826204144723168738177180919299881250404026184124858368.0

  /** Rounding of a real towards zero. */
  function Trunc(x: real): int
  {
    if x >= 0.0 then x.Floor else -((-x).Floor)
  }

  /** Smallest integer at or above `x`. */
  function Ceil(x: real): int
  {
    -((-x).Floor)
  }

  /** Java's `(int)` cast of a double: truncation, saturating at the 32-bit range. */
  function JavaInt(x: real): (r: int)
    ensures INT_MIN <= r <= INT_MAX
    ensures x >= 1.0 ==> r >= 1
    ensures x <= -1.0 ==> r <= -1
    ensures -1.0 < x < 1.0 ==> r == 0
  {
    var t := Trunc(x);
    if t < INT_MIN then INT_MIN else if t > INT_MAX then INT_MAX else t
  }

  /** The sign of an integer comparator result. */
  function Sgn(v: int): int
  {
    if v < 0 then -1 else if v > 0 then 1 else 0
  }

  /** The sign of a real difference. */
  function SgnR(d: real): int
  {
    if d < 0.0 then -1 else if d > 0.0 then 1 else 0
  }
}

/**
 * The comparator shapes the code base repeats, and the stable sort that
 * `Arrays.sort`/`List.sort` amount to for a comparator whose sign is that of
 * a key difference.
 */
module Order {
  import opened Common

  /**
   * The floor/ceiling step of every length comparator: the floor of a
   * negative difference, the ceiling of a positive one, narrowed to int.
   */
  function Step(d: real): (v: int)
    ensures Sgn(v) == SgnR(d)
  {
    if d < 0.0 then JavaInt(d.Floor as real)
    else if d > 0.0 then JavaInt(Ceil(d) as real)
    else 0
  }

  /**
   * `Point.compare` and the bid comparators: the truncated difference when it
   * exceeds one in magnitude, otherwise its sign.
   */
  function Coarse(d: real): (v: int)
    ensures Sgn(v) == SgnR(d)
  {
    if d < -1.0 || d > 1.0 then JavaInt(d)
    else if d < 0.0 then -1
    else if d > 0.0 then 1
    else 0
  }

  /**
   * A comparator over nullable values that places every value before null:
   * two nulls are equal, otherwise the step of the key difference.
   */
  function NullsLast(o1: Option<real>, o2: Option<real>): (v: int)
    ensures o1.None? && o2.None? ==> v == 0
    ensures o1.Some? && o2.None? ==> v < 0
    ensures o1.None? && o2.Some? ==> v > 0
    ensures o1.Some? && o2.Some? ==> Sgn(v) == SgnR(o1.value - o2.value)
  {
    if o1.None? && o2.None? then 0
    else if o1.Some? && o2.None? then -1
    else if o1.None? then 1
    else Step(o1.value - o2.value)
  }

  /** The mirror image of `NullsLast`: every value after null. */
  function NullsFirst(o1: Option<real>, o2: Option<real>): (v: int)
    ensures o1.None? && o2.None? ==> v == 0
    ensures o1.Some? && o2.None? ==> v > 0
    ensures o1.None? && o2.Some? ==> v < 0
    ensures o1.Some? && o2.Some? ==> Sgn(v) == SgnR(o1.value - o2.value)
  {
    if o1.None? && o2.None? then 0
    else if o1.Some? && o2.None? then 1
    else if o1.None? then -1
    else Step(o1.value - o2.value)
  }

  /** Swapping the arguments of `NullsLast` flips the sign of its result. */
  lemma NullsLastAntisymmetric(o1: Option<real>, o2: Option<real>)
    ensures Sgn(NullsLast(o1, o2)) == -Sgn(NullsLast(o2, o1))
  {
  }

  /** Swapping the arguments of `NullsFirst` flips the sign of its result. */
  lemma NullsFirstAntisymmetric(o1: Option<real>, o2: Option<real>)
    ensures Sgn(NullsFirst(o1, o2)) == -Sgn(NullsFirst(o2, o1))
  {
  }

  /** `s` is ordered by non-decreasing `key`. */
  ghost predicate SortedBy<T>(s: seq<T>, key: T -> real)
  {
    forall i, j :: 0 <= i < j < |s| ==> key(s[i]) <= key(s[j])
  }

  /**
   * Places `x` in front of the first element whose key is not smaller, so an
   * element inserted later in the sort keeps ahead of the equal ones it
   * preceded in the input.
   */
  function Insert<T>(x: T, s: seq<T>, key: T -> real): (r: seq<T>)
    requires SortedBy(s, key)
    ensures multiset(r) == multiset(s) + multiset{x}
    ensures SortedBy(r, key)
    ensures |r| == |s| + 1
  {
    if |s| == 0 then [x]
    else if key(x) <= key(s[0]) then [x] + s
    else
      var t := Insert(x, s[1..], key);
      assert multiset(s) == multiset{s[0]} + multiset(s[1..]) by {
        assert s == [s[0]] + s[1..];
      }
      var u := [x] + s[1..];
      assert multiset(t) == multiset(u);
      assert forall i :: 0 <= i < |u| ==> key(s[0]) <= key(u[i]) by {
        forall i | 0 <= i < |u|
          ensures key(s[0]) <= key(u[i])
        {
          if i > 0 {
            assert u[i] == s[i];
          }
        }
      }
      KeysAbove(t, u, key, key(s[0]));
      ConsSorted(s[0], t, key);
      assert multiset([s[0]] + t) == multiset{s[0]} + multiset(t);
      [s[0]] + t
  }

  /** A head no larger than every key of a sorted tail gives a sorted sequence. */
  lemma ConsSorted<T>(h: T, t: seq<T>, key: T -> real)
    requires SortedBy(t, key) && forall i :: 0 <= i < |t| ==> key(h) <= key(t[i])
    ensures SortedBy([h] + t, key)
  {
    var r := [h] + t;
    forall i, j | 0 <= i < j < |r|
      ensures key(r[i]) <= key(r[j])
    {
      assert r[j] == t[j - 1];
      if i > 0 {
        assert r[i] == t[i - 1];
      }
    }
  }

  /** A lower bound on the keys of a sequence bounds the keys of any permutation of it. */
  lemma KeysAbove<T>(t: seq<T>, u: seq<T>, key: T -> real, lo: real)
    requires multiset(t) == multiset(u)
    requires forall i :: 0 <= i < |u| ==> lo <= key(u[i])
    ensures forall i :: 0 <= i < |t| ==> lo <= key(t[i])
  {
    forall i | 0 <= i < |t|
      ensures lo <= key(t[i])
    {
      assert t[i] in multiset(u);
      var k :| 0 <= k < |u| && u[k] == t[i];
    }
  }

  /** A stable sort by ascending `key`. */
  function SortBy<T>(s: seq<T>, key: T -> real): (r: seq<T>)
    ensures multiset(r) == multiset(s)
    ensures SortedBy(r, key)
    ensures |r| == |s|
  {
    if |s| == 0 then []
    else
      assert s == [s[0]] + s[1..];
      Insert(s[0], SortBy(s[1..], key), key)
  }

  /** The head of a sorted non-empty sequence has the least key of the input. */
  lemma SortByHeadIsLeast<T>(s: seq<T>, key: T -> real)
    requires |s| > 0
    ensures SortBy(s, key)[0] in multiset(s)
    ensures forall x :: x in s ==> key(SortBy(s, key)[0]) <= key(x)
  {
    var r := SortBy(s, key);
    assert r[0] in multiset(r);
    forall x | x in s
      ensures key(r[0]) <= key(x)
    {
      assert x in multiset(s);
      assert x in multiset(r);
      var k :| 0 <= k < |r| && r[k] == x;
      if k > 0 {
        assert key(r[0]) <= key(r[k]);
      }
    }
  }

  /** The head after inserting `x`: `x` itself unless the old head has a strictly smaller key. */
  lemma InsertHead<T>(x: T, t: seq<T>, key: T -> real)
    requires SortedBy(t, key) && |t| > 0
    ensures Insert(x, t, key)[0] == if key(x) <= key(t[0]) then x else t[0]
  {
  }

  /** The head of a one-step sort: the first element, or the head of the sorted rest. */
  lemma SortByHead<T>(s: seq<T>, key: T -> real)
    requires |s| > 1
    ensures var t := SortBy(s[1..], key);
      SortBy(s, key)[0] == if key(s[0]) <= key(t[0]) then s[0] else t[0]
  {
    InsertHead(s[0], SortBy(s[1..], key), key);
  }

  /** The position of the earliest element with the least key. */
  function FirstLeast<T>(s: seq<T>, key: T -> real): (i: nat)
    requires |s| > 0
    ensures i < |s|
    ensures forall j :: 0 <= j < |s| ==> key(s[i]) <= key(s[j])
    ensures forall j :: 0 <= j < i ==> key(s[j]) > key(s[i])
  {
    if |s| == 1 then 0
    else
      var k := FirstLeast(s[1..], key) + 1;
      assert forall j :: 1 <= j < |s| ==> s[j] == s[1..][j - 1];
      if key(s[0]) <= key(s[k]) then 0 else k
  }

  /** The sort is stable at the head: it starts with the earliest element of least key. */
  lemma {:induction false} SortByHeadIsFirstLeast<T>(s: seq<T>, key: T -> real)
    requires |s| > 0
    ensures SortBy(s, key)[0] == s[FirstLeast(s, key)]
  {
    if |s| == 1 {
      assert SortBy(s, key)[0] == s[0];
    } else {
      SortByHead(s, key);
      SortByHeadIsFirstLeast(s[1..], key);
    }
  }

  /** The earliest position of least key is the only one that is least with every earlier key strictly greater. */
  lemma FirstLeastUnique<T>(s: seq<T>, key: T -> real, i: nat)
    requires i < |s|
    requires forall j :: 0 <= j < |s| ==> key(s[i]) <= key(s[j])
    requires forall j :: 0 <= j < i ==> key(s[j]) > key(s[i])
    ensures FirstLeast(s, key) == i
  {
  }

  /**
   * Appending one element: it becomes the earliest least only when its key
   * is strictly below the least one so far.
   */
  lemma FirstLeastSnoc<T>(s: seq<T>, x: T, key: T -> real)
    requires |s| > 0
    ensures var f := FirstLeast(s, key);
      FirstLeast(s + [x], key) == if key(x) < key(s[f]) then |s| else f
  {
    var f := FirstLeast(s, key);
    var t := s + [x];
    if key(x) < key(s[f]) {
      forall j | 0 <= j < |t|
        ensures key(t[|s|]) <= key(t[j])
      {
        if j < |s| {
          assert t[j] == s[j];
        }
      }
      forall j | 0 <= j < |s|
        ensures key(t[j]) > key(t[|s|])
      {
        assert t[j] == s[j];
      }
      FirstLeastUnique(t, key, |s|);
    } else {
      forall j | 0 <= j < |t|
        ensures key(t[f]) <= key(t[j])
      {
        assert t[f] == s[f];
        if j < |s| {
          assert t[j] == s[j];
        }
      }
      forall j | 0 <= j < f
        ensures key(t[j]) > key(t[f])
      {
        assert t[j] == s[j] && t[f] == s[f];
      }
      FirstLeastUnique(t, key, f);
    }
  }
}
