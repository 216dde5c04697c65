/** The allocator seen as a set of used page indices in [0, total). */
module PageSets {
  import opened Wrappers

  function Range(start: nat, n: nat): (r: set<nat>)
    ensures forall k :: k in r <==> start <= k < start + n
  {
    if n == 0 then {} else Range(start, n - 1) + {start + n - 1}
  }

  lemma {:induction false} RangeSize(start: nat, n: nat)
    ensures |Range(start, n)| == n
  {
    if n > 0 {
      RangeSize(start, n - 1);
    }
  }

  predicate WindowFree(used: set<nat>, start: nat, n: nat)
  {
    forall k :: start <= k < start + n ==> k !in used
  }

  /** The lowest start at or above `from` of a window of n free pages. */
  function FirstFitFrom(used: set<nat>, total: nat, n: nat, from: nat): (r: Option<nat>)
    ensures r.Some? ==> from <= r.value && r.value + n <= total && WindowFree(used, r.value, n)
    ensures r.Some? ==> forall s :: from <= s < r.value ==> !WindowFree(used, s, n)
    ensures r.None? ==> forall s :: from <= s && s + n <= total ==> !WindowFree(used, s, n)
    decreases total - from
  {
    if from + n > total then None
    else if WindowFree(used, from, n) then Some(from)
    else if from < total then FirstFitFrom(used, total, n, from + 1)
    else None
  }

  function FirstFit(used: set<nat>, total: nat, n: nat): (r: Option<nat>)
  {
    FirstFitFrom(used, total, n, 0)
  }

  /** First fit is sound, lowest, and complete, and nothing else is. */
  lemma FirstFitUnique(used: set<nat>, total: nat, n: nat, r: Option<nat>)
    ensures r == FirstFit(used, total, n) <==>
      match r
      case None => forall s: nat :: s + n <= total ==> !WindowFree(used, s, n)
      case Some(s) => s + n <= total && WindowFree(used, s, n) && forall s': nat :: s' < s ==> !WindowFree(used, s', n)
  {
    var f := FirstFit(used, total, n);
    if r.Some? && f.Some? && r != f {
      assert r.value < f.value || f.value < r.value;
    }
  }

  /** How many pages are free. */
  function FreeCount(used: set<nat>, total: nat): int
  {
    total - |used|
  }

  lemma SubsetSize<T>(a: set<T>, b: set<T>)
    requires a <= b
    ensures |a| <= |b|
    ensures |a| == |b| ==> a == b
  {
    var rest := b - a;
    assert b == a + rest;
  }

  /** The free count is the number of pages that are not used. */
  lemma FreeCountCounts(used: set<nat>, total: nat)
    requires used <= Range(0, total)
    ensures FreeCount(used, total) == |Range(0, total) - used|
  {
    RangeSize(0, total);
    assert Range(0, total) == used + (Range(0, total) - used);
  }

  /** Taking a free window lowers the free count by its size; giving it back restores the set. */
  lemma TakeAndGiveBack(used: set<nat>, total: nat, start: nat, n: nat)
    requires used <= Range(0, total) && start + n <= total
    ensures 0 <= FreeCount(used, total) <= total
    ensures WindowFree(used, start, n) ==>
              && FreeCount(used + Range(start, n), total) == FreeCount(used, total) - n
              && (used + Range(start, n)) - Range(start, n) == used
    ensures FreeCount(used + Range(start, n), total) == FreeCount(used, total) - |Range(start, n) - used|
    ensures (used + Range(start, n)) + Range(start, n) == used + Range(start, n)
  {
    RangeSize(0, total);
    SubsetSize(used, Range(0, total));
    UnionSize(used, Range(start, n));
    if WindowFree(used, start, n) {
      WindowApart(used, start, n);
    }
  }

  lemma UnionSize(used: set<nat>, pages: set<nat>)
    ensures |used + pages| == |used| + |pages - used|
    ensures (used + pages) + pages == used + pages
  {
    assert used + pages == used + (pages - used);
  }

  lemma WindowApart(used: set<nat>, start: nat, n: nat)
    requires WindowFree(used, start, n)
    ensures |Range(start, n) - used| == n && (used + Range(start, n)) - Range(start, n) == used
  {
    RangeSize(start, n);
    assert Range(start, n) - used == Range(start, n);
  }

  /** A single page can be had exactly while some page is free. */
  lemma OnePageFits(used: set<nat>, total: nat)
    requires used <= Range(0, total)
    ensures FirstFit(used, total, 1).Some? <==> FreeCount(used, total) > 0
  {
    RangeSize(0, total);
    SubsetSize(used, Range(0, total));
    if FirstFit(used, total, 1).None? {
      forall k | 0 <= k < total ensures k in used {
        assert !WindowFree(used, k, 1);
      }
      assert used == Range(0, total);
    } else {
      var k := FirstFit(used, total, 1).value;
      assert k !in used && k in Range(0, total);
      assert used != Range(0, total);
    }
  }
}
