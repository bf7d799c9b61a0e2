/**
 * The iterator chapter: the hand-written `Counter` iterator, whose `next`
 * bumps a `u32` field and yields it while it is below 6, and the range
 * examples stepped with `next`, added up with `sum` and filtered for even
 * numbers.
 */
module Iterators {
  import opened Wrappers

  /** The largest `u32`; `count += 1` beyond it would overflow. */
  const U32Max: nat := 0xFFFF_FFFF

  // ---------------------------------------------------------------------
  // Counter
  // ---------------------------------------------------------------------

  /** The item `next` yields when it finds `count` in the field. */
  function NextItem(count: nat): (item: Option<nat>)
    ensures item.Some? <==> count < 5
    ensures item.Some? ==> item.value == count + 1
  {
    if count + 1 < 6 then Some(count + 1) else None
  }

  /** The items of `n` successive `next` calls on a counter holding `count`. */
  function Items(count: nat, n: nat): (items: seq<Option<nat>>)
    ensures |items| == n
    decreases n
  {
    if n == 0 then [] else [NextItem(count)] + Items(count + 1, n - 1)
  }

  /** The `j`-th call sees the field at `count + j`. */
  lemma {:induction false} ItemsAt(count: nat, n: nat, j: nat)
    requires j < n
    ensures Items(count, n)[j] == NextItem(count + j)
    decreases n
  {
    if j > 0 {
      ItemsAt(count + 1, n - 1, j - 1);
    }
  }

  /** Once `next` has returned `None`, every later call returns `None` too. */
  lemma ExhaustedStaysExhausted(count: nat, n: nat, j: nat, k: nat)
    requires j <= k < n
    requires Items(count, n)[j] == None
    ensures Items(count, n)[k] == None
  {
    ItemsAt(count, n, j);
    ItemsAt(count, n, k);
  }

  /** A fresh counter yields 1, 2, 3, 4, 5 and then `None`. */
  lemma FreshCounterItems()
    ensures Items(0, 6) == [Some(1), Some(2), Some(3), Some(4), Some(5), None]
  {
  }

  /** What `sum` adds up when it drives a counter holding `count` to its first `None`. */
  function RemainingSum(count: nat): nat
    decreases 6 - count
  {
    if count + 1 < 6 then count + 1 + RemainingSum(count + 1) else 0
  }

  /** The sum over a fresh counter is 1 + 2 + 3 + 4 + 5. */
  lemma FreshCounterSum()
    ensures RemainingSum(0) == 15
  {
  }

  /** The remaining sum in closed form: the numbers above `count` up to 5. */
  lemma {:induction false} RemainingSumClosed(count: nat)
    ensures count < 5 ==> 2 * RemainingSum(count) == 30 - count * (count + 1)
    ensures count >= 5 ==> RemainingSum(count) == 0
    decreases 6 - count
  {
    if count + 1 < 6 {
      RemainingSumClosed(count + 1);
    }
  }

  /** `struct Counter { count: u32 }` with its `Iterator` implementation. */
  class Counter {
    var count: nat

    /** `Counter { count: 0 }`. */
    constructor()
      ensures count == 0
    {
      count := 0;
    }

    /**
     * `next`: increments the field on every call, also after exhaustion, and
     * yields the new value while it is below 6.
     */
    method Next() returns (item: Option<nat>)
      requires count < U32Max
      modifies this
      ensures count == old(count) + 1
      ensures item == NextItem(old(count))
    {
      count := count + 1;
      if count < 6 {
        item := Some(count);
      } else {
        item := None;
      }
    }

    /** `sum`: calls `next` until the first `None` and adds up the items. */
    method Sum() returns (total: nat)
      requires count < U32Max
      modifies this
      ensures total == RemainingSum(old(count))
      ensures count == if old(count) < 5 then 6 else old(count) + 1
    {
      total := 0;
      var start := count;
      while true
        invariant start <= count <= 5 || count == start
        invariant total + RemainingSum(count) == RemainingSum(start)
        decreases 6 - count
      {
        var item := Next();
        if item == None {
          return;
        }
        total := total + item.value;
      }
    }
  }

  /** The assertions of the chapter on a fresh counter. */
  method CounterExample() returns (items: seq<Option<nat>>, total: nat)
    ensures items == [Some(1), Some(2), Some(3), Some(4), Some(5), None]
    ensures total == 15
  {
    var counter := new Counter();
    items := [];
    for i := 0 to 6
      invariant counter.count == i
      invariant items == Items(0, i)
    {
      var item := counter.Next();
      ItemsSnoc(0, i);
      items := items + [item];
    }
    FreshCounterItems();
    var second := new Counter();
    total := second.Sum();
    FreshCounterSum();
  }

  /** One more call appends one more item. */
  lemma {:induction false} ItemsSnoc(count: nat, n: nat)
    ensures Items(count, n + 1) == Items(count, n) + [NextItem(count + n)]
    decreases n
  {
    if n > 0 {
      ItemsSnoc(count + 1, n - 1);
    }
  }

  // ---------------------------------------------------------------------
  // Ranges
  // ---------------------------------------------------------------------

  /** A half-open range `start..end` used as an iterator. */
  class Range {
    var start: int
    const end: int

    constructor(lo: int, hi: int)
      ensures start == lo && end == hi
    {
      start := lo;
      end := hi;
    }

    /** `next`: yields `start` and advances it, until it reaches `end`. */
    method Next() returns (item: Option<int>)
      modifies this
      ensures old(start) < end ==> item == Some(old(start)) && start == old(start) + 1
      ensures old(start) >= end ==> item == None && start == old(start)
    {
      if start < end {
        item := Some(start);
        start := start + 1;
      } else {
        item := None;
      }
    }
  }

  /** `(0..10).into_iter()` yields 0, 1, 2, 3 on its first four calls. */
  method RangeExample() returns (a: Option<int>, b: Option<int>, c: Option<int>, d: Option<int>)
    ensures a == Some(0) && b == Some(1) && c == Some(2) && d == Some(3)
  {
    var range := new Range(0, 10);
    a := range.Next();
    b := range.Next();
    c := range.Next();
    d := range.Next();
  }

  /** The sum of the numbers in `lo..hi`. */
  function RangeSum(lo: int, hi: int): int
    decreases hi - lo
  {
    if lo < hi then lo + RangeSum(lo + 1, hi) else 0
  }

  /** Gauss's formula for the sum of a range. */
  lemma {:induction false} RangeSumClosed(lo: int, hi: int)
    requires lo <= hi
    ensures 2 * RangeSum(lo, hi) == (hi - lo) * (lo + hi - 1)
    decreases hi - lo
  {
    if lo < hi {
      RangeSumClosed(lo + 1, hi);
    }
  }

  /** `(lo..hi).into_iter().sum()`: drains the range and adds up its items. */
  method SumRange(lo: int, hi: int) returns (total: int)
    ensures total == RangeSum(lo, hi)
  {
    var range := new Range(lo, hi);
    total := 0;
    while true
      invariant lo <= range.start || range.start == lo
      invariant range.end == hi
      invariant total + RangeSum(range.start, hi) == RangeSum(lo, hi)
      decreases hi - range.start
    {
      var item := range.Next();
      if item == None {
        return;
      }
      total := total + item.value;
    }
  }

  /** The sum of `0..10` is 45. */
  method SumExample() returns (total: int)
    ensures total == 45
  {
    total := SumRange(0, 10);
    RangeSumClosed(0, 10);
  }

  /** The even numbers of `lo..hi`, in order. */
  function Evens(lo: int, hi: int): seq<int>
    decreases hi - lo
  {
    if lo < hi then (if lo % 2 == 0 then [lo] else []) + Evens(lo + 1, hi) else []
  }

  /** `filter(|x| x % 2 == 0)` keeps exactly the even members of the range. */
  lemma {:induction false} EvensMembers(lo: int, hi: int, x: int)
    ensures x in Evens(lo, hi) <==> lo <= x < hi && x % 2 == 0
    decreases hi - lo
  {
    if lo < hi {
      EvensMembers(lo + 1, hi, x);
    }
  }

  /** The filtered items stay in range order. */
  lemma {:induction false} EvensIncreasing(lo: int, hi: int)
    ensures forall i, j :: 0 <= i < j < |Evens(lo, hi)| ==> Evens(lo, hi)[i] < Evens(lo, hi)[j]
    decreases hi - lo
  {
    if lo < hi {
      EvensIncreasing(lo + 1, hi);
      var rest := Evens(lo + 1, hi);
      forall k | 0 <= k < |rest| ensures lo < rest[k] {
        EvensMembers(lo + 1, hi, rest[k]);
      }
    }
  }

  /** From an even start, the `k`-th even number is `lo + 2 * k`. */
  lemma {:induction false} EvensClosed(lo: int, hi: int)
    requires lo % 2 == 0 && lo <= hi
    ensures |Evens(lo, hi)| == (hi - lo + 1) / 2
    ensures forall k :: 0 <= k < |Evens(lo, hi)| ==> Evens(lo, hi)[k] == lo + 2 * k
    decreases hi - lo
  {
    if lo + 1 < hi {
      assert Evens(lo + 1, hi) == Evens(lo + 2, hi);
      EvensClosed(lo + 2, hi);
    }
  }

  /** `(lo..hi).filter(|x| x % 2 == 0).collect()`. */
  method CollectEvens(lo: int, hi: int) returns (evens: seq<int>)
    ensures evens == Evens(lo, hi)
  {
    var range := new Range(lo, hi);
    evens := [];
    while true
      invariant lo <= range.start || range.start == lo
      invariant range.end == hi
      invariant evens + Evens(range.start, hi) == Evens(lo, hi)
      decreases hi - range.start
    {
      var item := range.Next();
      if item == None {
        return;
      }
      if item.value % 2 == 0 {
        evens := evens + [item.value];
      }
    }
  }

  /** Filtering `0..20` for even numbers gives 0, 2, ..., 18. */
  method EvensExample() returns (evens: seq<int>)
    ensures evens == [0, 2, 4, 6, 8, 10, 12, 14, 16, 18]
  {
    evens := CollectEvens(0, 20);
    EvensClosed(0, 20);
  }
}
