/**
 * The reference meaning of "the median of the values seen so far": sort the
 * values, then take the middle element (odd count) or the mean of the two
 * middle elements (even count). Also the top-of-heap contract of the two
 * priority queues: the greatest (resp. least) element of a non-empty multiset.
 */
module MedianSpec {
  import opened Wrappers

  predicate Sorted(s: seq<real>)
  {
    forall i, j :: 0 <= i <= j < |s| ==> s[i] <= s[j]
  }

  // ---------------------------------------------------------------------------
  // Top of a priority queue
  // ---------------------------------------------------------------------------

  /** Some element of a non-empty multiset. */
  ghost function Pick(m: multiset<real>): (x: real)
    requires |m| > 0
    ensures x in m
  {
    assert exists x :: x in m by {
      if forall y :: y !in m {
        assert false;
      }
    }
    var x :| x in m;
    x
  }

  lemma {:induction false} HasMaximum(m: multiset<real>)
    requires |m| > 0
    ensures exists x :: x in m && forall y :: y in m ==> y <= x
    decreases |m|
  {
    var x := Pick(m);
    var rest := m - multiset{x};
    if |rest| == 0 {
      OnlyElement(m, x);
    } else {
      HasMaximum(rest);
      var z :| z in rest && forall y :: y in rest ==> y <= z;
      MaximumWithOneMore(m, x, z);
    }
  }

  lemma {:induction false} HasMinimum(m: multiset<real>)
    requires |m| > 0
    ensures exists x :: x in m && forall y :: y in m ==> x <= y
    decreases |m|
  {
    var x := Pick(m);
    var rest := m - multiset{x};
    if |rest| == 0 {
      OnlyElement(m, x);
    } else {
      HasMinimum(rest);
      var z :| z in rest && forall y :: y in rest ==> z <= y;
      MinimumWithOneMore(m, x, z);
    }
  }

  /** Removing `x` from `m` leaves nothing only when every element of `m` is `x`. */
  lemma OnlyElement(m: multiset<real>, x: real)
    requires x in m && |m - multiset{x}| == 0
    ensures forall y :: y in m ==> y == x
  {
    assert m - multiset{x} == multiset{};
    forall y | y in m
      ensures y == x
    {
      assert (m - multiset{x})[y] == 0;
    }
  }

  /** The greater of `x` and the maximum `z` of the rest is the maximum of `m`. */
  lemma MaximumWithOneMore(m: multiset<real>, x: real, z: real)
    requires x in m && z in m - multiset{x}
    requires forall y :: y in m - multiset{x} ==> y <= z
    ensures var best := if x <= z then z else x;
      best in m && forall y :: y in m ==> y <= best
  {
    forall y | y in m
      ensures y <= (if x <= z then z else x)
    {
      if y != x {
        assert y in m - multiset{x};
      }
    }
  }

  /** The lesser of `x` and the minimum `z` of the rest is the minimum of `m`. */
  lemma MinimumWithOneMore(m: multiset<real>, x: real, z: real)
    requires x in m && z in m - multiset{x}
    requires forall y :: y in m - multiset{x} ==> z <= y
    ensures var best := if x <= z then x else z;
      best in m && forall y :: y in m ==> best <= y
  {
    forall y | y in m
      ensures (if x <= z then x else z) <= y
    {
      if y != x {
        assert y in m - multiset{x};
      }
    }
  }

  /** `top()` of a max-heap: an element of the heap that no element exceeds. */
  function MaxOf(m: multiset<real>): (r: real)
    requires |m| > 0
    ensures r in m && forall y :: y in m ==> y <= r
  {
    HasMaximum(m);
    var x :| x in m && forall y :: y in m ==> y <= x;
    x
  }

  /** `top()` of a min-heap (std::greater ordering): an element no element undercuts. */
  function MinOf(m: multiset<real>): (r: real)
    requires |m| > 0
    ensures r in m && forall y :: y in m ==> r <= y
  {
    HasMinimum(m);
    var x :| x in m && forall y :: y in m ==> x <= y;
    x
  }

  // ---------------------------------------------------------------------------
  // Sorting (insertion sort), the independent reference for the median
  // ---------------------------------------------------------------------------

  function Insert(x: real, s: seq<real>): (r: seq<real>)
    requires Sorted(s)
    ensures Sorted(r) && multiset(r) == multiset(s) + multiset{x}
  {
    if s == [] || x <= s[0] then [x] + s
    else
      var rest := Insert(x, s[1..]);
      assert s == [s[0]] + s[1..];
      assert forall k :: 0 <= k < |rest| ==> s[0] <= rest[k] by {
        forall k | 0 <= k < |rest|
          ensures s[0] <= rest[k]
        {
          assert rest[k] in multiset(rest);
          assert rest[k] == x || rest[k] in multiset(s[1..]);
        }
      }
      [s[0]] + rest
  }

  function Sort(s: seq<real>): (r: seq<real>)
    ensures Sorted(r) && multiset(r) == multiset(s)
  {
    if s == [] then []
    else
      assert s == [s[0]] + s[1..];
      Insert(s[0], Sort(s[1..]))
  }

  /** The middle element, or the mean of the two middle elements; None for no values. */
  function MiddleOf(s: seq<real>): (r: Option<real>)
    ensures r.None? <==> s == []
    ensures Sorted(s) && s != [] ==> s[0] <= r.value <= s[|s| - 1]
    ensures Sorted(s) && s != [] ==>
      (forall i :: 0 <= i < |s| / 2 ==> s[i] <= r.value)
      && (forall i :: (|s| + 1) / 2 <= i < |s| ==> r.value <= s[i])
  {
    if s == [] then None
    else if |s| % 2 == 1 then Some(s[|s| / 2])
    else Some((s[|s| / 2 - 1] + s[|s| / 2]) / 2.0)
  }

  /** The median of `values` by the textbook definition: sort, then take the middle. */
  function SortedMedian(values: seq<real>): (r: Option<real>)
    ensures r.None? <==> values == []
  {
    MiddleOf(Sort(values))
  }

  // ---------------------------------------------------------------------------
  // Lemmas
  // ---------------------------------------------------------------------------

  /** A sorted arrangement of a multiset is unique. */
  lemma {:induction false} SortedUnique(a: seq<real>, b: seq<real>)
    requires Sorted(a) && Sorted(b)
    requires multiset(a) == multiset(b)
    ensures a == b
    decreases |a|
  {
    assert |a| == |multiset(a)| == |multiset(b)| == |b|;
    if a != [] {
      assert a[0] in multiset(a);
      assert a[0] in b;
      var i :| 0 <= i < |b| && b[i] == a[0];
      assert b[0] in multiset(b);
      assert b[0] in a;
      var j :| 0 <= j < |a| && a[j] == b[0];
      assert a[0] == b[0];
      TailMultiset(a);
      TailMultiset(b);
      SortedUnique(a[1..], b[1..]);
    }
  }

  lemma TailMultiset(s: seq<real>)
    requires s != []
    ensures multiset(s[1..]) == multiset(s) - multiset{s[0]}
  {
    assert s == [s[0]] + s[1..];
  }

  /** The final median depends only on which values were added, not on their order. */
  lemma SortedMedianOrderIndependent(a: seq<real>, b: seq<real>)
    requires multiset(a) == multiset(b)
    ensures SortedMedian(a) == SortedMedian(b)
  {
    SortedUnique(Sort(a), Sort(b));
  }

  /** A sorted sequence holding exactly the elements of a multiset (proof device). */
  ghost function SortedOf(m: multiset<real>): (r: seq<real>)
    ensures Sorted(r) && multiset(r) == m
    decreases |m|
  {
    if |m| == 0 then []
    else
      var rest := SortedOf(m - multiset{MinOf(m)});
      PrependMin(m, rest);
      [MinOf(m)] + rest
  }

  lemma PrependMin(m: multiset<real>, rest: seq<real>)
    requires |m| > 0
    requires Sorted(rest) && multiset(rest) == m - multiset{MinOf(m)}
    ensures Sorted([MinOf(m)] + rest) && multiset([MinOf(m)] + rest) == m
  {
    var x := MinOf(m);
    SortedCons(x, rest);
    assert m == (m - multiset{x}) + multiset{x};
  }

  lemma SortedCons(x: real, s: seq<real>)
    requires Sorted(s)
    requires forall y :: y in multiset(s) ==> x <= y
    ensures Sorted([x] + s)
  {
    forall k | 0 <= k < |s|
      ensures x <= s[k]
    {
      assert s[k] in multiset(s);
    }
  }

  lemma SortedConcat(a: seq<real>, b: seq<real>)
    requires Sorted(a) && Sorted(b)
    requires forall x, y :: x in multiset(a) && y in multiset(b) ==> x <= y
    ensures Sorted(a + b)
  {
    var s := a + b;
    forall i, j | 0 <= i <= j < |s|
      ensures s[i] <= s[j]
    {
      if i < |a| <= j {
        assert a[i] in multiset(a);
        assert b[j - |a|] in multiset(b);
      }
    }
  }

  lemma LastOfSortedIsMax(s: seq<real>, m: multiset<real>)
    requires Sorted(s) && multiset(s) == m && |s| > 0
    ensures s[|s| - 1] == MaxOf(m)
  {
    assert s[|s| - 1] in multiset(s);
    var k :| 0 <= k < |s| && s[k] == MaxOf(m);
  }

  lemma FirstOfSortedIsMin(s: seq<real>, m: multiset<real>)
    requires Sorted(s) && multiset(s) == m && |s| > 0
    ensures s[0] == MinOf(m)
  {
    assert s[0] in multiset(s);
    var k :| 0 <= k < |s| && s[k] == MinOf(m);
  }

  /** Where the middle of a sequence split at `l` (with `u` elements after) lies. */
  lemma MiddleAt(s: seq<real>, l: nat, u: nat)
    requires |s| == l + u && l <= u + 1 && u <= l + 1 && l + u > 0
    ensures l == u ==> MiddleOf(s) == Some((s[l - 1] + s[l]) / 2.0)
    ensures l > u ==> MiddleOf(s) == Some(s[l - 1])
    ensures l < u ==> MiddleOf(s) == Some(s[l])
  {
    if l == u {
      assert |s| / 2 == l;
    }
  }

  /** Sorting two ordered halves together is sorting each and concatenating. */
  lemma SortSplits(lower: multiset<real>, upper: multiset<real>, values: seq<real>)
    requires lower + upper == multiset(values)
    requires forall x, y :: x in lower && y in upper ==> x <= y
    ensures Sort(values) == SortedOf(lower) + SortedOf(upper)
  {
    var sl, su := SortedOf(lower), SortedOf(upper);
    SortedConcat(sl, su);
    assert multiset(sl + su) == multiset(Sort(values));
    SortedUnique(sl + su, Sort(values));
  }

  /**
   * Two halves that are balanced (sizes differ by at most one) and ordered
   * (nothing in `lower` exceeds anything in `upper`) determine the median of
   * all values from their boundary elements alone.
   */
  lemma HalvesMedian(lower: multiset<real>, upper: multiset<real>, values: seq<real>)
    requires lower + upper == multiset(values)
    requires |lower| <= |upper| + 1 && |upper| <= |lower| + 1
    requires forall x, y :: x in lower && y in upper ==> x <= y
    requires |lower| + |upper| > 0
    ensures |lower| == |upper| ==>
              SortedMedian(values) == Some((MaxOf(lower) + MinOf(upper)) / 2.0)
    ensures |lower| > |upper| ==> SortedMedian(values) == Some(MaxOf(lower))
    ensures |lower| < |upper| ==> SortedMedian(values) == Some(MinOf(upper))
  {
    SortSplits(lower, upper, values);
    MedianOfSplit(lower, upper, SortedOf(lower), SortedOf(upper));
  }

  lemma MedianOfSplit(lower: multiset<real>, upper: multiset<real>, sl: seq<real>, su: seq<real>)
    requires Sorted(sl) && multiset(sl) == lower
    requires Sorted(su) && multiset(su) == upper
    requires |lower| <= |upper| + 1 && |upper| <= |lower| + 1
    requires |lower| + |upper| > 0
    ensures |lower| == |upper| ==> MiddleOf(sl + su) == Some((MaxOf(lower) + MinOf(upper)) / 2.0)
    ensures |lower| > |upper| ==> MiddleOf(sl + su) == Some(MaxOf(lower))
    ensures |lower| < |upper| ==> MiddleOf(sl + su) == Some(MinOf(upper))
  {
    var l, u := |sl|, |su|;
    var a, b := 0.0, 0.0;
    if l > 0 {
      LastOfSortedIsMax(sl, lower);
      a := sl[l - 1];
    }
    if u > 0 {
      FirstOfSortedIsMin(su, upper);
      b := su[0];
    }
    MiddleOfBoundaries(sl + su, l, u, a, b);
  }

  lemma MiddleOfBoundaries(s: seq<real>, l: nat, u: nat, a: real, b: real)
    requires |s| == l + u && l <= u + 1 && u <= l + 1 && l + u > 0
    requires l > 0 ==> s[l - 1] == a
    requires u > 0 ==> s[l] == b
    ensures l == u ==> MiddleOf(s) == Some((a + b) / 2.0)
    ensures l > u ==> MiddleOf(s) == Some(a)
    ensures l < u ==> MiddleOf(s) == Some(b)
  {
    MiddleAt(s, l, u);
  }

  /** The median may be read off any sorted arrangement of the values. */
  lemma SortedMedianOfArrangement(values: seq<real>, s: seq<real>)
    requires Sorted(s) && multiset(s) == multiset(values)
    ensures SortedMedian(values) == MiddleOf(s)
  {
    SortedUnique(Sort(values), s);
  }

  /** Three values added as low, high, middle: the median is the middle one. */
  lemma MedianOfThree(low: real, mid: real, high: real)
    requires low <= mid <= high
    ensures SortedMedian([low, high, mid]) == Some(mid)
  {
    var s := [low, mid, high];
    SwapLastTwo(low, mid, high);
    SortedThree(low, mid, high);
    assert MiddleOf(s) == Some(mid);
    SortedMedianOfArrangement([low, high, mid], s);
  }

  lemma SortedThree(a: real, b: real, c: real)
    requires a <= b <= c
    ensures Sorted([a, b, c])
  {
  }

  lemma SwapLastTwo(a: real, b: real, c: real)
    ensures multiset([a, b, c]) == multiset([a, c, b])
  {
  }

  lemma SortedFour(a: real, b: real, c: real, d: real)
    requires a <= b <= c <= d
    ensures Sorted([a, b, c, d])
  {
  }

  /** Four values already in order: the median is the mean of the two in the middle. */
  lemma MedianOfFour(a: real, b: real, c: real, d: real)
    requires a <= b <= c <= d
    ensures SortedMedian([a, b, c, d]) == Some((b + c) / 2.0)
  {
    var s := [a, b, c, d];
    SortedFour(a, b, c, d);
    assert MiddleOf(s) == Some((b + c) / 2.0);
    SortedMedianOfArrangement(s, s);
  }

  /** Adding 1, 3, 2 gives the median 2. */
  lemma OddCountMedian()
    ensures SortedMedian([1.0, 3.0, 2.0]) == Some(2.0)
  {
    MedianOfThree(1.0, 2.0, 3.0);
  }

  /** Adding 1, 2, 3, 4 gives the median 2.5. */
  lemma EvenCountMedian()
    ensures SortedMedian([1.0, 2.0, 3.0, 4.0]) == Some(2.5)
  {
    MedianOfFour(1.0, 2.0, 3.0, 4.0);
  }
}
