/**
 * The fixed-size latency histogram of the MTE timing tests: `HISTOGRAM_SIZE`
 * samples plus one spare slot, a threshold, and a flag recording whether the
 * samples have been sorted.
 */
module Histogram {
  import opened Util

  /** `HISTOGRAM_SIZE`. */
  const SIZE: nat := 100

  /** Ascending order. */
  ghost predicate Sorted(s: seq<u64>) {
    forall i, j | 0 <= i < j < |s| :: s[i] <= s[j]
  }

  // ---------------------------------------------------------------------------
  // The library sort: its result is the unique ascending permutation of the
  // input, written here as an insertion sort on sequences.
  // ---------------------------------------------------------------------------

  function Insert(x: u64, s: seq<u64>): (r: seq<u64>)
    ensures multiset(r) == multiset(s) + multiset{x}
    ensures Sorted(s) ==> Sorted(r)
    ensures |r| == |s| + 1
  {
    if s == [] || x <= s[0] then
      [x] + s
    else
      assert s == [s[0]] + s[1..];
      var t := Insert(x, s[1..]);
      ConsSorted(s[0], x, s[1..], t);
      [s[0]] + t
  }

  /** A sorted sequence stays sorted below a head no larger than any of its
      elements; `t` holds the elements of `u` and `x`. */
  lemma ConsSorted(y: u64, x: u64, u: seq<u64>, t: seq<u64>)
    requires multiset(t) == multiset(u) + multiset{x}
    ensures Sorted([y] + u) ==> Sorted(u)
    ensures Sorted([y] + u) && y <= x && Sorted(t) ==> Sorted([y] + t)
  {
    if Sorted([y] + u) {
      forall i, j | 0 <= i < j < |u| ensures u[i] <= u[j] {
        assert ([y] + u)[i + 1] == u[i] && ([y] + u)[j + 1] == u[j];
      }
      if y <= x && Sorted(t) {
        forall k | 0 <= k < |t| ensures y <= t[k] {
          assert t[k] in multiset(t);
          if t[k] != x {
            assert t[k] in multiset(u);
            assert t[k] in u;
            var i :| 0 <= i < |u| && u[i] == t[k];
            assert ([y] + u)[0] == y && ([y] + u)[i + 1] == u[i];
          }
        }
      }
    }
  }

  /** What `qsort` with `histogram_compare` leaves in the array. */
  function SortSeq(s: seq<u64>): (r: seq<u64>)
    ensures Sorted(r)
    ensures multiset(r) == multiset(s)
    ensures |r| == |s|
  {
    if s == [] then [] else
      assert s == [s[0]] + s[1..];
      Insert(s[0], SortSeq(s[1..]))
  }

  lemma HeadIsLeast(a: seq<u64>, x: u64)
    requires Sorted(a) && x in multiset(a)
    ensures a[0] <= x
  {
    var i :| 0 <= i < |a| && a[i] == x;
  }

  lemma SplitHead(a: seq<u64>)
    requires a != []
    ensures Sorted(a) ==> Sorted(a[1..])
    ensures multiset(a) == multiset{a[0]} + multiset(a[1..])
    ensures multiset(a[1..]) == multiset(a) - multiset{a[0]}
    ensures a == [a[0]] + a[1..]
  {
    assert a == [a[0]] + a[1..];
  }

  lemma HeadsAgree(a: seq<u64>, b: seq<u64>)
    requires Sorted(a) && Sorted(b) && multiset(a) == multiset(b) && a != [] && b != []
    ensures a[0] == b[0] && Sorted(a[1..]) && Sorted(b[1..])
    ensures multiset(a[1..]) == multiset(b[1..])
    ensures a == [a[0]] + a[1..] && b == [b[0]] + b[1..]
  {
    assert b[0] in multiset(b) && a[0] in multiset(a);
    HeadIsLeast(a, b[0]);
    HeadIsLeast(b, a[0]);
    SplitHead(a);
    SplitHead(b);
  }

  /** Any two ascending permutations of the same samples are equal, so the
    * model does not depend on which sorting algorithm the C library uses. */
  lemma {:induction false} SortedUnique(a: seq<u64>, b: seq<u64>)
    requires Sorted(a) && Sorted(b) && multiset(a) == multiset(b)
    ensures a == b
    decreases |a|
  {
    assert |a| == |multiset(a)| == |multiset(b)| == |b|;
    if a != [] {
      HeadsAgree(a, b);
      SortedUnique(a[1..], b[1..]);
    }
  }

  /** Sorting what is already sorted changes nothing. */
  lemma SortSeqOfSorted(s: seq<u64>)
    requires Sorted(s)
    ensures SortSeq(s) == s
  {
    SortedUnique(SortSeq(s), s);
  }

  // ---------------------------------------------------------------------------
  // Counting
  // ---------------------------------------------------------------------------

  /** How many samples lie below `threshold`. */
  function CountBelow(s: seq<u64>, threshold: u64): (r: nat)
    ensures r <= |s|
  {
    if s == [] then 0
    else CountBelow(s[..|s| - 1], threshold) + (if s[|s| - 1] < threshold then 1 else 0)
  }

  /** How many samples are nonzero. */
  function CountNonzero(s: seq<u64>): (r: nat)
    ensures r <= |s|
  {
    if s == [] then 0
    else CountNonzero(s[..|s| - 1]) + (if s[|s| - 1] != 0 then 1 else 0)
  }

  lemma {:induction false} CountBelowSplit(a: seq<u64>, b: seq<u64>, threshold: u64)
    ensures CountBelow(a + b, threshold) == CountBelow(a, threshold) + CountBelow(b, threshold)
    decreases |b|
  {
    if b != [] {
      assert (a + b)[..|a + b| - 1] == a + b[..|b| - 1];
      CountBelowSplit(a, b[..|b| - 1], threshold);
    } else {
      assert a + b == a;
    }
  }

  /** The count sees only which samples there are, not their order. */
  lemma {:induction false} CountBelowPermutation(a: seq<u64>, b: seq<u64>, threshold: u64)
    requires multiset(a) == multiset(b)
    ensures CountBelow(a, threshold) == CountBelow(b, threshold)
    decreases |a|
  {
    assert |a| == |multiset(a)| == |multiset(b)| == |b|;
    if a != [] {
      var x := a[|a| - 1];
      assert a == a[..|a| - 1] + [x];
      assert x in multiset(b);
      var k :| 0 <= k < |b| && b[k] == x;
      assert b == b[..k] + [x] + b[k + 1..];
      var rest := b[..k] + b[k + 1..];
      assert multiset(b) == multiset(b[..k]) + multiset{x} + multiset(b[k + 1..]);
      assert multiset(a) == multiset(a[..|a| - 1]) + multiset{x};
      assert multiset(rest) == multiset(b[..k]) + multiset(b[k + 1..]);
      assert multiset(a[..|a| - 1]) == multiset(a) - multiset{x};
      assert multiset(rest) == multiset(b) - multiset{x};
      CountBelowPermutation(a[..|a| - 1], rest, threshold);
      CountBelowSplit(a[..|a| - 1], [x], threshold);
      CountBelowSplit(b[..k] + [x], b[k + 1..], threshold);
      CountBelowSplit(b[..k], [x], threshold);
      CountBelowSplit(b[..k], b[k + 1..], threshold);
    }
  }

  /** Every sample counts exactly when every sample is below the threshold,
    * and none counts exactly when none is. */
  lemma {:induction false} CountBelowExtremes(s: seq<u64>, threshold: u64)
    ensures CountBelow(s, threshold) == |s| <==> forall i | 0 <= i < |s| :: s[i] < threshold
    ensures CountBelow(s, threshold) == 0 <==> forall i | 0 <= i < |s| :: s[i] >= threshold
    decreases |s|
  {
    if s != [] {
      var init := s[..|s| - 1];
      CountBelowExtremes(init, threshold);
      assert forall i | 0 <= i < |init| :: init[i] == s[i];
    }
  }

  /** All samples are nonzero exactly when the nonzero count is full. */
  lemma {:induction false} CountNonzeroFull(s: seq<u64>)
    ensures CountNonzero(s) == |s| <==> forall i | 0 <= i < |s| :: s[i] != 0
    decreases |s|
  {
    if s != [] {
      var init := s[..|s| - 1];
      CountNonzeroFull(init);
      assert forall i | 0 <= i < |init| :: init[i] == s[i];
    }
  }

  /** The slot `histogram_percentile` reads. */
  function PercentileIndex(p: nat): (r: nat)
    requires p <= 100
    ensures r <= SIZE
    ensures r == p * SIZE / 100
  {
    (SIZE * p) / 100
  }

  // ---------------------------------------------------------------------------
  // The histogram object
  // ---------------------------------------------------------------------------

  class Histogram {
    /** `entries[HISTOGRAM_SIZE + 1]`: the last slot is spare. */
    const entries: array<u64>
    var threshold: u64
    var sorted: bool

    ghost predicate Valid()
      reads this
    {
      entries.Length == SIZE + 1
    }

    /** A zero-initialised histogram, as a static `histogram_t` starts. */
    constructor (threshold: u64)
      ensures Valid() && fresh(entries)
      ensures entries[..] == seq(SIZE + 1, _ => 0)
      ensures this.threshold == threshold && !sorted
    {
      entries := new u64[SIZE + 1](_ => 0);
      this.threshold := threshold;
      sorted := false;
    }

    /** `histogram_reset`: every slot, the spare one included, becomes zero
      * and the sorted flag drops; the threshold stays. */
    method Reset()
      requires Valid()
      modifies this, entries
      ensures Valid()
      ensures entries[..] == seq(SIZE + 1, _ => 0)
      ensures !sorted && threshold == old(threshold)
    {
      forall i | 0 <= i < entries.Length {
        entries[i] := 0;
      }
      sorted := false;
    }

    /** `histogram_sort`: unless already sorted, the first `SIZE - 1` slots are
      * put in ascending order; the last sample and the spare slot are never
      * touched. The flag is set either way. */
    method Sort()
      requires Valid()
      modifies this, entries
      ensures Valid() && sorted && threshold == old(threshold)
      ensures old(sorted) ==> entries[..] == old(entries[..])
      ensures !old(sorted) ==> entries[..SIZE - 1] == SortSeq(old(entries[..SIZE - 1]))
      ensures entries[SIZE - 1..] == old(entries[SIZE - 1..])
    {
      if !sorted {
        var s := SortSeq(entries[..SIZE - 1]);
        forall i | 0 <= i < SIZE - 1 {
          entries[i] := s[i];
        }
        assert entries[..SIZE - 1] == s;
      }
      sorted := true;
    }

    /** `histogram_percentile`: the sample at rank `SIZE * p / 100`. The C code
      * asserts the flag; a `p` above 100 would read past the array. */
    function Percentile(p: u32): (r: u64)
      reads this, entries
      requires Valid() && sorted && p <= 100
      ensures r == entries[p]
    {
      entries[PercentileIndex(p)]
    }

    /** `histogram_count`: how many of the `SIZE` samples lie below the
      * threshold. */
    method Count() returns (count: nat)
      requires Valid()
      ensures count == CountBelow(entries[..SIZE], threshold)
      ensures count <= SIZE
    {
      count := 0;
      for i := 0 to SIZE
        invariant count == CountBelow(entries[..i], threshold)
      {
        assert entries[..i + 1][..i] == entries[..i];
        if entries[i] < threshold {
          count := count + 1;
        }
      }
      assert entries[..SIZE] == entries[..SIZE];
    }

    /** `histogram_valid`: true exactly when none of the `SIZE` samples is
      * zero (a zero marks a measurement that never happened). */
    method IsValid() returns (valid: bool)
      requires Valid()
      ensures valid <==> forall i | 0 <= i < SIZE :: entries[i] != 0
    {
      var count := 0;
      for i := 0 to SIZE
        invariant count == CountNonzero(entries[..i])
      {
        assert entries[..i + 1][..i] == entries[..i];
        if entries[i] != 0 {
          count := count + 1;
        }
      }
      CountNonzeroFull(entries[..SIZE]);
      valid := count == SIZE;
    }
  }

  /** In a sorted run, the sample at rank `i` has at most `i` samples below
    * it, and every later sample is at least as large. */
  lemma PercentileRank(s: seq<u64>, i: nat)
    requires Sorted(s) && i < |s|
    ensures CountBelow(s, s[i]) <= i
    ensures forall j | i <= j < |s| :: s[i] <= s[j]
  {
    assert s == s[..i] + s[i..];
    CountBelowSplit(s[..i], s[i..], s[i]);
    CountBelowExtremes(s[i..], s[i]);
  }

  /** Once the sort has run, a percentile up to the 98th has at most `p`
    * sorted samples below it, and percentiles up to the 98th are monotone. */
  lemma PercentileOrder(h: Histogram, p: u32, q: u32)
    requires h.Valid() && h.sorted && Sorted(h.entries[..SIZE - 1])
    requires p <= q <= SIZE - 2
    ensures CountBelow(h.entries[..SIZE - 1], h.Percentile(p)) <= p
    ensures h.Percentile(p) <= h.Percentile(q)
  {
    assert h.entries[..SIZE - 1][p] == h.entries[p];
    assert h.entries[..SIZE - 1][q] == h.entries[q];
    PercentileRank(h.entries[..SIZE - 1], p as nat);
  }

  /** Sorting leaves the threshold count unchanged: the sort permutes the
    * counted samples and touches no other counted slot. */
  lemma CountAfterSort(before: seq<u64>, after: seq<u64>, threshold: u64)
    requires |before| == |after| == SIZE + 1
    requires after[..SIZE - 1] == SortSeq(before[..SIZE - 1])
    requires after[SIZE - 1..] == before[SIZE - 1..]
    ensures CountBelow(after[..SIZE], threshold) == CountBelow(before[..SIZE], threshold)
  {
    assert before[..SIZE] == before[..SIZE - 1] + [before[SIZE - 1]];
    assert after[..SIZE] == after[..SIZE - 1] + [after[SIZE - 1]];
    CountBelowSplit(before[..SIZE - 1], [before[SIZE - 1]], threshold);
    CountBelowSplit(after[..SIZE - 1], [after[SIZE - 1]], threshold);
    CountBelowPermutation(after[..SIZE - 1], before[..SIZE - 1], threshold);
  }

  /** The sort covers only `SIZE - 1` samples, so the 99th percentile reads
    * the last sample, which no sort ever places: here it is smaller than the
    * 98th although the sort has run. */
  lemma LastSampleUnordered()
    ensures var before := seq(SIZE - 1, _ => 5) + [0, 0];
            var after := SortSeq(before[..SIZE - 1]) + before[SIZE - 1..];
            after[PercentileIndex(99)] < after[PercentileIndex(98)]
  {
    var before := seq(SIZE - 1, _ => 5) + [0, 0];
    assert before[..SIZE - 1] == seq(SIZE - 1, _ => 5);
    SortSeqOfSorted(seq(SIZE - 1, _ => 5));
  }
}
