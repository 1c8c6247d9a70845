/**
 * The online running-median calculator: a max-heap holding the lower half of
 * the values added so far and a min-heap holding the upper half. Values are
 * exact reals (the source uses `long double`). Each priority queue is modelled
 * by its contents as a multiset; `top()` is MaxOf / MinOf, `push` adds one
 * occurrence and `pop` removes one occurrence of the top.
 */
module Median {
  import opened Wrappers
  import opened MedianSpec

  /** Every element of the lower half is at most every element of the upper half. */
  ghost predicate Ordered(lower: multiset<real>, upper: multiset<real>)
  {
    forall x, y :: x in lower && y in upper ==> x <= y
  }

  lemma PushLowerKeepsOrder(lower: multiset<real>, upper: multiset<real>, v: real)
    requires Ordered(lower, upper) && (|lower| == 0 ==> |upper| == 0)
    requires |lower| == 0 || v <= MaxOf(lower)
    ensures Ordered(lower + multiset{v}, upper)
  {
    if |upper| > 0 {
      forall y | y in upper
        ensures v <= y
      {
        assert MaxOf(lower) in lower;
      }
    }
  }

  lemma PushUpperKeepsOrder(lower: multiset<real>, upper: multiset<real>, v: real)
    requires Ordered(lower, upper) && |lower| > 0 && MaxOf(lower) < v
    ensures Ordered(lower, upper + multiset{v})
  {
  }

  lemma MoveMaxKeepsOrder(lower: multiset<real>, upper: multiset<real>)
    requires Ordered(lower, upper) && |lower| > 0
    ensures Ordered(lower - multiset{MaxOf(lower)}, upper + multiset{MaxOf(lower)})
  {
    var top := MaxOf(lower);
    forall x, y | x in lower - multiset{top} && y in upper + multiset{top}
      ensures x <= y
    {
      assert x in lower;
    }
  }

  lemma MoveMinKeepsOrder(lower: multiset<real>, upper: multiset<real>)
    requires Ordered(lower, upper) && |upper| > 0
    ensures Ordered(lower + multiset{MinOf(upper)}, upper - multiset{MinOf(upper)})
  {
    var top := MinOf(upper);
    forall x, y | x in lower + multiset{top} && y in upper - multiset{top}
      ensures x <= y
    {
      assert y in upper;
    }
  }

  /**
   * What `median()` reads off the two tops: None when both halves are empty,
   * the mean of the tops when they are equally large, else the larger half's top.
   */
  function MedianOfTops(lower: multiset<real>, upper: multiset<real>): (r: Option<real>)
    requires |lower| == 0 ==> |upper| == 0
    ensures r.None? <==> |lower| == 0
  {
    if |lower| == 0 && |upper| == 0 then None
    else if |lower| == |upper| then Some((MaxOf(lower) + MinOf(upper)) / 2.0)
    else if |lower| > |upper| then Some(MaxOf(lower))
    else Some(MinOf(upper))
  }

  /** Balanced, ordered halves of the added values give the sorted median from their tops. */
  lemma TopsGiveMedian(lower: multiset<real>, upper: multiset<real>, values: seq<real>)
    requires lower + upper == multiset(values)
    requires |lower| <= |upper| + 1 && |upper| <= |lower| + 1
    requires Ordered(lower, upper) && (|lower| == 0 ==> |upper| == 0)
    ensures MedianOfTops(lower, upper) == SortedMedian(values)
  {
    if |lower| == 0 {
      assert |multiset(values)| == |values|;
    } else {
      HalvesMedian(lower, upper, values);
    }
  }

  /**
   * The heaps `balance` leaves: the larger heap's top moves across when that
   * heap is more than one element larger, else nothing changes.
   */
  function Rebalance(lower: multiset<real>, upper: multiset<real>): (r: (multiset<real>, multiset<real>))
    ensures r.0 + r.1 == lower + upper
    ensures |lower| <= |upper| + 2 && |upper| <= |lower| + 2 ==>
              |r.0| <= |r.1| + 1 && |r.1| <= |r.0| + 1
  {
    if |lower| > |upper| + 1 then
      var top := MaxOf(lower);
      assert lower == (lower - multiset{top}) + multiset{top};
      (lower - multiset{top}, upper + multiset{top})
    else if |upper| > |lower| + 1 then
      var top := MinOf(upper);
      assert upper == (upper - multiset{top}) + multiset{top};
      (lower + multiset{top}, upper - multiset{top})
    else (lower, upper)
  }

  /**
   * The heaps after `add_number(value)`: the value goes to the lower half when
   * that half is empty or its top is at least the value, else to the upper
   * half, and then the halves are rebalanced.
   */
  function AddToHalves(lower: multiset<real>, upper: multiset<real>, value: real): (r: (multiset<real>, multiset<real>))
    ensures r.0 + r.1 == lower + upper + multiset{value}
    ensures |lower| <= |upper| + 1 && |upper| <= |lower| + 1 ==>
              |r.0| <= |r.1| + 1 && |r.1| <= |r.0| + 1
  {
    if |lower| == 0 || value <= MaxOf(lower) then Rebalance(lower + multiset{value}, upper)
    else Rebalance(lower, upper + multiset{value})
  }

  class MedianCalculator {
    /** Lower half; its top is the greatest element. */
    var maxHeap: multiset<real>
    /** Upper half; its top is the least element. */
    var minHeap: multiset<real>
    /** Every value passed to Add, in call order. */
    ghost var added: seq<real>

    /**
     * The calculator's invariant: the heaps hold exactly the values added,
     * their sizes differ by at most one, every lower value is at most every
     * upper value, and the upper half is empty whenever the lower half is.
     */
    ghost predicate Valid()
      reads this
    {
      && maxHeap + minHeap == multiset(added)
      && |maxHeap| <= |minHeap| + 1
      && |minHeap| <= |maxHeap| + 1
      && Ordered(maxHeap, minHeap)
      && (|maxHeap| == 0 ==> |minHeap| == 0)
    }

    constructor ()
      ensures Valid()
      ensures added == [] && maxHeap == multiset{} && minHeap == multiset{}
    {
      maxHeap := multiset{};
      minHeap := multiset{};
      added := [];
    }

    /** Routes `value` to the lower half when it is at most the lower half's top, then rebalances. */
    method Add(value: real)
      requires Valid()
      modifies this
      ensures Valid()
      ensures added == old(added) + [value]
      ensures (maxHeap, minHeap) == AddToHalves(old(maxHeap), old(minHeap), value)
    {
      if |maxHeap| == 0 || value <= MaxOf(maxHeap) {
        PushLowerKeepsOrder(maxHeap, minHeap, value);
        maxHeap := maxHeap + multiset{value};
      } else {
        PushUpperKeepsOrder(maxHeap, minHeap, value);
        minHeap := minHeap + multiset{value};
      }
      added := added + [value];
      Balance();
    }

    /**
     * Moves one top element from a heap that is two larger than the other
     * (private in the source; only Add calls it).
     */
    method Balance()
      requires maxHeap + minHeap == multiset(added)
      requires |maxHeap| <= |minHeap| + 2 && |minHeap| <= |maxHeap| + 2
      requires Ordered(maxHeap, minHeap)
      requires |maxHeap| > 0
      modifies this
      ensures Valid()
      ensures added == old(added) && maxHeap + minHeap == old(maxHeap + minHeap)
      ensures old(|maxHeap|) > old(|minHeap|) + 1 ==>
                && maxHeap == old(maxHeap) - multiset{MaxOf(old(maxHeap))}
                && minHeap == old(minHeap) + multiset{MaxOf(old(maxHeap))}
      ensures old(|minHeap|) > old(|maxHeap|) + 1 ==>
                && maxHeap == old(maxHeap) + multiset{MinOf(old(minHeap))}
                && minHeap == old(minHeap) - multiset{MinOf(old(minHeap))}
      ensures old(|maxHeap|) <= old(|minHeap|) + 1 && old(|minHeap|) <= old(|maxHeap|) + 1 ==>
                maxHeap == old(maxHeap) && minHeap == old(minHeap)
      ensures (maxHeap, minHeap) == Rebalance(old(maxHeap), old(minHeap))
    {
      if |maxHeap| > |minHeap| + 1 {
        var top := MaxOf(maxHeap);
        MoveMaxKeepsOrder(maxHeap, minHeap);
        minHeap := minHeap + multiset{top};
        maxHeap := maxHeap - multiset{top};
      } else if |minHeap| > |maxHeap| + 1 {
        var top := MinOf(minHeap);
        MoveMinKeepsOrder(maxHeap, minHeap);
        maxHeap := maxHeap + multiset{top};
        minHeap := minHeap - multiset{top};
      }
    }

    /**
     * The current median, None before the first Add. It reads the two tops
     * only, and equals the middle of the sorted added values.
     */
    function Median(): (r: Option<real>)
      reads this
      requires Valid()
      ensures r == SortedMedian(added)
      ensures r.None? <==> added == []
    {
      TopsGiveMedian(maxHeap, minHeap, added);
      MedianOfTops(maxHeap, minHeap)
    }
  }

  /** A new calculator given each of `values` in turn. */
  method AddAll(values: seq<real>) returns (calculator: MedianCalculator)
    ensures fresh(calculator) && calculator.Valid() && calculator.added == values
  {
    calculator := new MedianCalculator();
    var i := 0;
    while i < |values|
      invariant 0 <= i <= |values|
      invariant fresh(calculator) && calculator.Valid() && calculator.added == values[..i]
    {
      calculator.Add(values[i]);
      assert values[..i + 1] == values[..i] + [values[i]];
      i := i + 1;
    }
    assert values[..i] == values;
  }

  /** Three values added out of order (low, high, middle): the median is the middle one. */
  method ThreeValuesExample(low: real, mid: real, high: real) returns (m: Option<real>)
    requires low <= mid <= high
    ensures m == Some(mid)
  {
    var calculator := AddAll([low, high, mid]);
    m := calculator.Median();
    MedianOfThree(low, mid, high);
  }

  /** Four increasing values: the median is the mean of the two in the middle. */
  method FourValuesExample(a: real, b: real, c: real, d: real) returns (m: Option<real>)
    requires a <= b <= c <= d
    ensures m == Some((b + c) / 2.0)
  {
    var calculator := AddAll([a, b, c, d]);
    m := calculator.Median();
    MedianOfFour(a, b, c, d);
  }

  /** Halves already within one of each other are left as they are. */
  lemma RebalanceWhenBalanced(lower: multiset<real>, upper: multiset<real>)
    requires |lower| <= |upper| + 1 && |upper| <= |lower| + 1
    ensures Rebalance(lower, upper) == (lower, upper)
  {
  }

  /** The only element of a one-element multiset is both its greatest and its least. */
  lemma SingletonTops(x: real)
    ensures MaxOf(multiset{x}) == x && MinOf(multiset{x}) == x
  {
    assert MaxOf(multiset{x}) in multiset{x};
    assert MinOf(multiset{x}) in multiset{x};
  }

  /**
   * Adding 5, 6, 7: 6 and 7 both exceed the lower top 5 and go to the upper
   * half, which ends one larger than the lower one; no element moves, and the
   * median is the upper top.
   */
  lemma UpperHalfCanBeLarger()
    ensures AddToHalves(multiset{}, multiset{}, 5.0) == (multiset{5.0}, multiset{})
    ensures AddToHalves(multiset{5.0}, multiset{}, 6.0) == (multiset{5.0}, multiset{6.0})
    ensures AddToHalves(multiset{5.0}, multiset{6.0}, 7.0) == (multiset{5.0}, multiset{6.0, 7.0})
    ensures MedianOfTops(multiset{5.0}, multiset{6.0, 7.0}) == Some(6.0)
  {
    assert multiset{} + multiset{5.0} == multiset{5.0};
    RebalanceWhenBalanced(multiset{5.0}, multiset{});
    SingletonTops(5.0);
    assert multiset{} + multiset{6.0} == multiset{6.0};
    RebalanceWhenBalanced(multiset{5.0}, multiset{6.0});
    assert multiset{6.0} + multiset{7.0} == multiset{6.0, 7.0};
    RebalanceWhenBalanced(multiset{5.0}, multiset{6.0, 7.0});
    UpperTopIsSix();
  }

  /** The least of 6 and 7 is 6. */
  lemma UpperTopIsSix()
    ensures MinOf(multiset{6.0, 7.0}) == 6.0
  {
    var t := MinOf(multiset{6.0, 7.0});
    assert t in multiset{6.0, 7.0};
    assert t <= 6.0;
  }
}
