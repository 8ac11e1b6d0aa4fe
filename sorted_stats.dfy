/**
  The helpers of the lazily sorted collection that run over an already sorted
  slice of samples: `median_on_sorted`, `quartiles_on_sorted`, `mode_on_sorted`
  and `modes_on_sorted` (src/unsorted.rs), and the deduplication behind
  `cardinality`. Samples are integers in their natural order; averages are reals.
*/
module SortedStats {
  import opened Optional
  import Sorting

  // ---------------------------------------------------------------------------
  // Order, counts and the sort used by the collection

  predicate Sorted(s: seq<int>) {
    forall i, j :: 0 <= i < j < |s| ==> s[i] <= s[j]
  }

  predicate StrictlyIncreasing(s: seq<int>) {
    forall i, j :: 0 <= i < j < |s| ==> s[i] < s[j]
  }

  /** How many times `x` occurs among the samples. */
  function Count(s: seq<int>, x: int): nat {
    multiset(s)[x]
  }

  /** The distinct values among the samples. */
  function Elems(s: seq<int>): set<int> {
    set x | x in s
  }

  function IntLe(a: int, b: int): bool {
    a <= b
  }

  /** The samples in ascending order: what `sort_unstable` leaves in the vector. */
  function SortInts(s: seq<int>): seq<int> {
    Sorting.SortBy(s, IntLe)
  }

  lemma IntLeIsTotalOrder()
    ensures Sorting.TotalPreorder(IntLe) && Sorting.Antisymmetric(IntLe)
  {
  }

  lemma SortIntsSortsAndPermutes(s: seq<int>)
    ensures Sorted(SortInts(s))
    ensures multiset(SortInts(s)) == multiset(s)
  {
    IntLeIsTotalOrder();
    Sorting.SortBySorted(s, IntLe);
    var r := SortInts(s);
    assert Sorting.SortedBy(r, IntLe);
    forall i, j | 0 <= i < j < |r| ensures r[i] <= r[j] {
      assert IntLe(r[i], r[j]);
    }
  }

  /** A sorted sequence is the sorted form of every permutation of it. */
  lemma {:induction false} SortedIsSortInts(s: seq<int>, t: seq<int>)
    requires Sorted(s) && multiset(s) == multiset(t)
    ensures s == SortInts(t)
  {
    IntLeIsTotalOrder();
    SortIntsSortsAndPermutes(t);
    assert Sorting.SortedBy(s, IntLe) by {
      forall i, j | 0 <= i < j < |s| ensures IntLe(s[i], s[j]) {}
    }
    assert Sorting.SortedBy(SortInts(t), IntLe) by {
      var r := SortInts(t);
      forall i, j | 0 <= i < j < |r| ensures IntLe(r[i], r[j]) {}
    }
    Sorting.SortedUnique(s, SortInts(t), IntLe);
  }

  /** The sorted samples, and with them every statistic below, depend only on which samples were added, not on their order. */
  lemma SortIntsDependsOnlyOnMultiset(s: seq<int>, t: seq<int>)
    requires multiset(s) == multiset(t)
    ensures SortInts(s) == SortInts(t)
  {
    SortIntsSortsAndPermutes(s);
    SortedIsSortInts(SortInts(s), t);
  }

  // ---------------------------------------------------------------------------
  // median_on_sorted

  function Average(a: int, b: int): real {
    (a as real + b as real) / 2.0
  }

  /**
    The middle sample, or the mean of the two middle samples. For every length
    the result is the mean of the samples at (n-1)/2 and n/2, which coincide
    when n is odd.
  */
  function MedianOnSorted(data: seq<int>): (r: Option<real>)
    ensures r.None? <==> |data| == 0
    ensures r.Some? ==> r.value == Average(data[(|data| - 1) / 2], data[|data| / 2])
  {
    match |data|
    case 0 => None
    case 1 => Some(data[0] as real)
    case _ =>
      var n := |data|;
      if n % 2 == 0 then Some(Average(data[n / 2 - 1], data[n / 2]))
      else Some(data[n / 2] as real)
  }

  /** On sorted data the median splits the samples in halves: the lower half lies at or below it, the upper half at or above it. */
  lemma MedianSplitsSamples(data: seq<int>)
    requires Sorted(data) && |data| > 0
    ensures var m := MedianOnSorted(data).value;
      && (forall i :: 0 <= i < (|data| + 1) / 2 ==> data[i] as real <= m)
      && (forall i :: |data| / 2 <= i < |data| ==> m <= data[i] as real)
  {
    var n := |data|;
    var m := MedianOnSorted(data).value;
    assert data[(n - 1) / 2] <= data[n / 2];
    forall i | 0 <= i < (n + 1) / 2 ensures data[i] as real <= m {
      assert data[i] <= data[(n - 1) / 2];
    }
    forall i | n / 2 <= i < n ensures m <= data[i] as real {
      assert data[n / 2] <= data[i];
    }
  }

  lemma MedianExamples()
    ensures MedianOnSorted([]) == None
    ensures MedianOnSorted([3, 5, 7, 9]) == Some(6.0)
    ensures MedianOnSorted([3, 5, 7]) == Some(5.0)
  {
  }

  // ---------------------------------------------------------------------------
  // quartiles_on_sorted

  /**
    Q1, Q2 and Q3 by the index table of the source: with r = n % 4 and
    k = (n - r) / 4, each branch reads fixed positions between k - 1 and 3k + 2.
    Every read is a bounds obligation here: the unchecked reads of the source
    stay within the slice for every n >= 4.
  */
  function QuartilesOnSorted(data: seq<int>): (r: Option<(real, real, real)>)
    ensures r.None? <==> |data| < 3
    ensures |data| == 3 ==> r == Some((data[0] as real, data[1] as real, data[2] as real))
  {
    var n := |data|;
    if n <= 2 then None
    else if n == 3 then Some((data[0] as real, data[1] as real, data[2] as real))
    else
      var r := n % 4;
      var k := (n - r) / 4;
      match r
      case 0 =>
        Some((Average(data[k - 1], data[k]), Average(data[2 * k - 1], data[2 * k]), Average(data[3 * k - 1], data[3 * k])))
      case 1 =>
        Some((Average(data[k - 1], data[k]), data[2 * k] as real, Average(data[3 * k], data[3 * k + 1])))
      case 2 =>
        Some((data[k] as real, Average(data[2 * k], data[2 * k + 1]), data[3 * k + 1] as real))
      case _ =>
        Some((data[k] as real, data[2 * k + 1] as real, data[3 * k + 2] as real))
  }

  /**
    The method behind the table: Q2 is the median, Q1 the median of the samples
    below the middle and Q3 the median of the samples above it (the middle sample
    itself belongs to neither half when n is odd).
  */
  lemma QuartilesAreMediansOfHalves(data: seq<int>)
    requires |data| >= 3
    ensures QuartilesAsMedians(data)
  {
    var n := |data|;
    var k := n / 4;
    if n == 3 {
      MediansOfHalves(data, 1, 0, 0, 1, 1, 2, 2, 2);
      SameAverage(data[0]);
      SameAverage(data[1]);
      SameAverage(data[2]);
    } else if n % 4 == 0 {
      QuartileHalves0(data, k);
    } else if n % 4 == 1 {
      QuartileHalves1(data, k);
    } else if n % 4 == 2 {
      QuartileHalves2(data, k);
    } else {
      QuartileHalves3(data, k);
    }
  }

  /** Q1, Q2, Q3 are the medians of the lower half, of all samples and of the upper half. */
  ghost predicate QuartilesAsMedians(data: seq<int>)
    requires |data| >= 3
  {
    var n := |data|;
    QuartilesOnSorted(data) == Some((
      MedianOnSorted(data[..n / 2]).value,
      MedianOnSorted(data).value,
      MedianOnSorted(data[(n + 1) / 2..]).value))
  }

  /** The median of a window of the samples, by the same middle-position rule. */
  lemma MedianOfWindow(data: seq<int>, lo: nat, hi: nat, a: nat, b: nat)
    requires lo < hi <= |data|
    requires a == lo + (hi - lo - 1) / 2 && b == lo + (hi - lo) / 2
    ensures MedianOnSorted(data[lo..hi]).value == Average(data[a], data[b])
  {
  }

  /** The three medians of QuartilesAsMedians, given the window bounds and middle positions. */
  lemma MediansOfHalves(data: seq<int>, m1: nat, a1: nat, b1: nat, a2: nat, b2: nat, m3: nat, a3: nat, b3: nat)
    requires |data| >= 3
    requires m1 == |data| / 2 && m3 == (|data| + 1) / 2
    requires a1 == (m1 - 1) / 2 && b1 == m1 / 2
    requires a2 == (|data| - 1) / 2 && b2 == |data| / 2
    requires a3 == m3 + (|data| - m3 - 1) / 2 && b3 == m3 + (|data| - m3) / 2
    ensures MedianOnSorted(data[..m1]).value == Average(data[a1], data[b1])
    ensures MedianOnSorted(data).value == Average(data[a2], data[b2])
    ensures MedianOnSorted(data[m3..]).value == Average(data[a3], data[b3])
  {
    assert data[..m1] == data[0..m1];
    MedianOfWindow(data, 0, m1, a1, b1);
    assert data[m3..] == data[m3..|data|];
    MedianOfWindow(data, m3, |data|, a3, b3);
  }

  lemma QuartileHalves0(data: seq<int>, k: nat)
    requires |data| == 4 * k && k >= 1
    ensures QuartilesAsMedians(data)
  {
    var n := |data|;
    assert n % 4 == 0 && (n - n % 4) / 4 == k;
    MediansOfHalves(data, 2 * k, k - 1, k, 2 * k - 1, 2 * k, 2 * k, 3 * k - 1, 3 * k);
  }

  lemma QuartileHalves1(data: seq<int>, k: nat)
    requires |data| == 4 * k + 1 && k >= 1
    ensures QuartilesAsMedians(data)
  {
    var n := |data|;
    assert n % 4 == 1 && (n - n % 4) / 4 == k;
    MediansOfHalves(data, 2 * k, k - 1, k, 2 * k, 2 * k, 2 * k + 1, 3 * k, 3 * k + 1);
    SameAverage(data[2 * k]);
  }

  lemma QuartileHalves2(data: seq<int>, k: nat)
    requires |data| == 4 * k + 2 && k >= 1
    ensures QuartilesAsMedians(data)
  {
    var n := |data|;
    assert n % 4 == 2 && (n - n % 4) / 4 == k;
    MediansOfHalves(data, 2 * k + 1, k, k, 2 * k, 2 * k + 1, 2 * k + 1, 3 * k + 1, 3 * k + 1);
    SameAverage(data[k]);
    SameAverage(data[3 * k + 1]);
  }

  lemma QuartileHalves3(data: seq<int>, k: nat)
    requires |data| == 4 * k + 3 && k >= 1
    ensures QuartilesAsMedians(data)
  {
    var n := |data|;
    assert n % 4 == 3 && (n - n % 4) / 4 == k;
    MediansOfHalves(data, 2 * k + 1, k, k, 2 * k + 1, 2 * k + 1, 2 * k + 2, 3 * k + 2, 3 * k + 2);
    SameAverage(data[k]);
    SameAverage(data[2 * k + 1]);
    SameAverage(data[3 * k + 2]);
  }

  lemma SameAverage(x: int)
    ensures Average(x, x) == x as real
  {
  }

  /** On sorted data the three quartiles are in order. */
  lemma QuartilesOrdered(data: seq<int>)
    requires Sorted(data) && |data| >= 3
    ensures var q := QuartilesOnSorted(data).value; q.0 <= q.1 <= q.2
  {
    var n := |data|;
    if n > 3 {
      var r := n % 4;
      var k := (n - r) / 4;
      assert n == 4 * k + r && k >= 1;
      if r == 0 {
        assert data[k - 1] <= data[2 * k - 1] && data[k] <= data[2 * k];
        assert data[2 * k - 1] <= data[3 * k - 1] && data[2 * k] <= data[3 * k];
      } else if r == 1 {
        assert data[k - 1] <= data[2 * k] && data[k] <= data[2 * k];
        assert data[2 * k] <= data[3 * k] && data[2 * k] <= data[3 * k + 1];
      } else if r == 2 {
        assert data[k] <= data[2 * k] && data[k] <= data[2 * k + 1];
        assert data[2 * k] <= data[3 * k + 1] && data[2 * k + 1] <= data[3 * k + 1];
      } else {
        assert data[k] <= data[2 * k + 1] <= data[3 * k + 2];
      }
    } else {
      assert data[0] <= data[1] <= data[2];
    }
  }

  lemma QuartilesExamples()
    ensures QuartilesOnSorted([3, 5]) == None
    ensures QuartilesOnSorted([3, 5, 7]) == Some((3.0, 5.0, 7.0))
    ensures QuartilesOnSorted([3, 5, 7, 9]) == Some((4.0, 6.0, 8.0))
    ensures QuartilesOnSorted([1, 2, 7, 11]) == Some((1.5, 4.5, 9.0))
    ensures QuartilesOnSorted([3, 5, 7, 9, 12]) == Some((4.0, 7.0, 10.5))
    ensures QuartilesOnSorted([2, 2, 3, 8, 10]) == Some((2.0, 3.0, 9.0))
    ensures QuartilesOnSorted([3, 5, 7, 9, 12, 20]) == Some((5.0, 8.0, 12.0))
    ensures QuartilesOnSorted([0, 2, 4, 8, 10, 11]) == Some((2.0, 6.0, 10.0))
    ensures QuartilesOnSorted([3, 5, 7, 9, 12, 20, 21]) == Some((5.0, 9.0, 20.0))
    ensures QuartilesOnSorted([1, 5, 6, 6, 7, 10, 19]) == Some((5.0, 6.0, 10.0))
  {
  }

  // ---------------------------------------------------------------------------
  // mode_on_sorted

  /** The four variables of the single-pass scan: the current best run and the run being counted, each with its number of repeats. */
  datatype ModeTracker = ModeTracker(mode: Option<int>, next: Option<int>, modeCount: nat, nextCount: nat)

  /** One iteration of the scan on sample `x`. */
  function ModeStep(t: ModeTracker, x: int): ModeTracker {
    var t1 :=
      if t.mode == Some(x) then t.(modeCount := t.modeCount + 1)
      else if t.next == Some(x) then t.(nextCount := t.nextCount + 1)
      else t.(next := Some(x), nextCount := 0);
    if t1.nextCount > t1.modeCount then ModeTracker(t1.next, None, t1.nextCount, 0)
    else if t1.nextCount == t1.modeCount then t1.(mode := None, modeCount := 0)
    else t1
  }

  /** The scan's state after the samples of `s`, in order. */
  function ModeTrack(s: seq<int>): ModeTracker
    decreases |s|
  {
    if s == [] then ModeTracker(None, None, 0, 0)
    else ModeStep(ModeTrack(s[..|s| - 1]), s[|s| - 1])
  }

  /** `v` has the one strictly longest run, and it is a real repeat. */
  ghost predicate UniqueLongestRun(s: seq<int>, v: int) {
    Count(s, v) >= 2 && forall w :: w != v ==> Count(s, w) < Count(s, v)
  }

  method ModeOnSorted(data: seq<int>) returns (r: Option<int>)
    ensures r == ModeTrack(data).mode
    ensures r.Some? ==> Count(data, r.value) >= 2
    ensures Sorted(data) ==> forall v :: UniqueLongestRun(data, v) ==> r == Some(v)
  {
    var mode: Option<int>, next: Option<int> := None, None;
    var modeCount: nat, nextCount: nat := 0, 0;
    for i := 0 to |data|
      invariant ModeTracker(mode, next, modeCount, nextCount) == ModeTrack(data[..i])
    {
      var x := data[i];
      assert data[..i + 1][..i] == data[..i];
      if mode == Some(x) {
        modeCount := modeCount + 1;
      } else if next == Some(x) {
        nextCount := nextCount + 1;
      } else {
        next := Some(x);
        nextCount := 0;
      }
      if nextCount > modeCount {
        mode, modeCount := next, nextCount;
        next, nextCount := None, 0;
      } else if nextCount == modeCount {
        mode, modeCount := None, 0;
      }
    }
    assert data[..|data|] == data;
    r := mode;
    ModeRepeats(data);
    if Sorted(data) {
      forall v | UniqueLongestRun(data, v) ensures r == Some(v) {
        ModeFindsUniqueLongestRun(data, v);
      }
    }
  }

  /** What the scan keeps true on any input: a tracked value has occurred more often than its repeat count. */
  ghost predicate Tracks(s: seq<int>, t: ModeTracker) {
    && (t.mode.None? ==> t.modeCount == 0)
    && (t.next.None? ==> t.nextCount == 0)
    && (t.mode.Some? ==> 1 <= t.modeCount < Count(s, t.mode.value))
    && (t.next.Some? ==> t.nextCount < Count(s, t.next.value))
  }

  lemma {:induction false} ModeTrackTracks(s: seq<int>)
    ensures Tracks(s, ModeTrack(s))
  {
    if s != [] {
      var p, x := s[..|s| - 1], s[|s| - 1];
      ModeTrackTracks(p);
      TracksStep(p, x, ModeTrack(p));
      assert s == p + [x];
    }
  }

  /** One more sample keeps the tracked counts below the real ones. */
  lemma TracksStep(p: seq<int>, x: int, t: ModeTracker)
    requires Tracks(p, t)
    ensures Tracks(p + [x], ModeStep(t, x))
  {
    assert multiset(p + [x]) == multiset(p) + multiset{x};
  }

  /** A reported mode occurs at least twice; so data without repeats (a single sample, distinct samples) has no mode. */
  lemma ModeRepeats(s: seq<int>)
    ensures ModeTrack(s).mode.Some? ==> Count(s, ModeTrack(s).mode.value) >= 2
  {
    ModeTrackTracks(s);
  }

  /** On sorted input the last run is tracked by `mode` or by `next`, and repeat counts are exact. */
  ghost predicate TracksSorted(s: seq<int>, t: ModeTracker) {
    && (|s| > 0 ==>
          || (t.mode == Some(s[|s| - 1]) && t.next.None?)
          || (t.next == Some(s[|s| - 1]) && t.mode != Some(s[|s| - 1])))
    && (t.mode.Some? ==> t.modeCount + 1 == Count(s, t.mode.value))
    && (t.next.Some? ==> t.nextCount + 1 == Count(s, t.next.value))
  }

  lemma {:induction false} ModeTrackSorted(s: seq<int>)
    requires Sorted(s)
    ensures Tracks(s, ModeTrack(s)) && TracksSorted(s, ModeTrack(s))
  {
    ModeTrackTracks(s);
    if s != [] {
      var p, x := s[..|s| - 1], s[|s| - 1];
      ModeTrackSorted(p);
      ModeTrackTracks(p);
      ModeStepSorted(p, x, ModeTrack(p));
      assert s == p + [x];
    }
  }

  lemma ModeStepSorted(p: seq<int>, x: int, t: ModeTracker)
    requires Sorted(p + [x])
    requires Tracks(p, t) && TracksSorted(p, t)
    ensures TracksSorted(p + [x], ModeStep(t, x))
  {
    var s := p + [x];
    assert multiset(s) == multiset(p) + multiset{x};
    // every earlier sample is at most x, so a tracked value other than x is not x
    if t.mode.Some? && t.mode.value != x {
      assert Count(s, t.mode.value) == Count(p, t.mode.value);
    }
    if t.next.Some? && t.next.value != x {
      assert Count(s, t.next.value) == Count(p, t.next.value);
    }
    if t.mode != Some(x) && t.next != Some(x) {
      // x starts a new run: it is larger than every earlier sample
      if p != [] {
        assert p[|p| - 1] != x;
        assert p[|p| - 1] <= x by { assert s[|p| - 1] <= s[|p|]; }
        forall i | 0 <= i < |p| ensures p[i] != x {
          assert s[i] <= s[|p| - 1];
        }
      }
      assert x !in multiset(p);
    } else if t.mode == Some(x) {
      // x repeats the tracked mode, which must be the last run
      assert x in multiset(p);
      var i :| 0 <= i < |p| && p[i] == x;
      assert s[i] <= s[|p| - 1] <= s[|p|];
    } else {
      assert x in multiset(p);
      var i :| 0 <= i < |p| && p[i] == x;
      assert s[i] <= s[|p| - 1] <= s[|p|];
    }
  }

  /** Counts in a prefix never exceed counts in the whole. */
  lemma PrefixCount(data: seq<int>, i: nat)
    requires i <= |data|
    ensures multiset(data[..i]) <= multiset(data)
  {
    assert data == data[..i] + data[i..];
  }

  /**
    On sorted data, when `v` has the unique strictly longest run and it has at
    least two samples, the scan reports `v`. (A tie for the longest run does not
    guarantee None: after a tie the scan forgets both runs, and a later shorter
    run can be reported; see ModeCanReportShorterRun.)
  */
  lemma ModeFindsUniqueLongestRun(data: seq<int>, v: int)
    requires Sorted(data) && UniqueLongestRun(data, v)
    ensures ModeTrack(data).mode == Some(v)
  {
    ModeLongestPrefix(data, v, |data|);
    assert data[..|data|] == data;
  }

  lemma {:induction false} ModeLongestPrefix(data: seq<int>, v: int, i: nat)
    requires Sorted(data) && UniqueLongestRun(data, v) && i <= |data|
    ensures var t := ModeTrack(data[..i]);
      && (t.next == Some(v) && t.mode != Some(v) ==> t.nextCount + 2 <= Count(data, v))
      && (Count(data[..i], v) == Count(data, v) ==> t.mode == Some(v))
  {
    if i > 0 {
      ModeLongestPrefix(data, v, i - 1);
      var p, x := data[..i - 1], data[i - 1];
      PrefixStep(data, i);
      ModeLongestStep(data, v, p, x, ModeTrack(p));
    }
  }

  /** The facts about the prefixes data[..i-1] and data[..i] = data[..i-1] + [data[i-1]] that one scan step needs. */
  lemma PrefixStep(data: seq<int>, i: nat)
    requires Sorted(data) && 0 < i <= |data|
    ensures var p, x := data[..i - 1], data[i - 1];
      && data[..i] == p + [x]
      && ModeTrack(data[..i]) == ModeStep(ModeTrack(p), x)
      && multiset(p + [x]) <= multiset(data)
      && multiset(p + [x]) == multiset(p) + multiset{x}
      && Tracks(p, ModeTrack(p)) && TracksSorted(p, ModeTrack(p))
      && Tracks(p + [x], ModeStep(ModeTrack(p), x)) && TracksSorted(p + [x], ModeStep(ModeTrack(p), x))
  {
    var p, x := data[..i - 1], data[i - 1];
    var s := data[..i];
    assert s == p + [x] && s[..|s| - 1] == p;
    assert Sorted(p) && Sorted(s);
    ModeTrackSorted(p);
    ModeTrackSorted(s);
    PrefixCount(data, i);
  }

  lemma ModeLongestStep(data: seq<int>, v: int, p: seq<int>, x: int, t: ModeTracker)
    requires UniqueLongestRun(data, v)
    requires multiset(p + [x]) <= multiset(data)
    requires multiset(p + [x]) == multiset(p) + multiset{x}
    requires Tracks(p, t) && TracksSorted(p, t)
    requires TracksSorted(p + [x], ModeStep(t, x)) && Tracks(p + [x], ModeStep(t, x))
    requires t.next == Some(v) && t.mode != Some(v) ==> t.nextCount + 2 <= Count(data, v)
    requires Count(p, v) == Count(data, v) ==> t.mode == Some(v)
    ensures var t' := ModeStep(t, x);
      && (t'.next == Some(v) && t'.mode != Some(v) ==> t'.nextCount + 2 <= Count(data, v))
      && (Count(p + [x], v) == Count(data, v) ==> t'.mode == Some(v))
  {
    var s := p + [x];
    var L := Count(data, v);
    var t' := ModeStep(t, x);
    // a tracked mode other than v has fewer than L samples so far
    if t.mode.Some? && t.mode.value != v {
      assert Count(p, t.mode.value) <= Count(s, t.mode.value) <= Count(data, t.mode.value) < L;
    }
    if t.next.Some? && t.next.value != v {
      assert Count(p, t.next.value) <= Count(s, t.next.value) <= Count(data, t.next.value);
    }
    if x != v {
      assert Count(s, x) <= Count(data, x) < L;
    }
  }


  lemma ModeTrackSnoc(p: seq<int>, x: int)
    ensures ModeTrack(p + [x]) == ModeStep(ModeTrack(p), x)
  {
    assert (p + [x])[..|p|] == p;
  }

  // The documented inputs are instances of patterns over arbitrary values; each
  // pattern is scanned one sample at a time.

  /** A stretch of pairwise different neighbours never produces a mode. */
  lemma ModeOfFourDistinct(a: int, b: int, c: int, d: int)
    requires a != b && b != c && c != d
    ensures ModeTrack([a, b, c, d]) == ModeTracker(None, Some(d), 0, 0)
  {
    ModeTrackSnoc([], a);
    assert [] + [a] == [a];
    ModeTrackSnoc([a], b);
    assert [a] + [b] == [a, b];
    ModeTrackSnoc([a, b], c);
    assert [a, b] + [c] == [a, b, c];
    ModeTrackSnoc([a, b, c], d);
    assert [a, b, c] + [d] == [a, b, c, d];
  }

  lemma ModeOfFourEqual(a: int)
    ensures ModeTrack([a, a, a, a]) == ModeTracker(Some(a), None, 3, 0)
  {
    ModeTrackSnoc([], a);
    assert [] + [a] == [a];
    ModeTrackSnoc([a], a);
    assert [a] + [a] == [a, a];
    ModeTrackSnoc([a, a], a);
    assert [a, a] + [a] == [a, a, a];
    ModeTrackSnoc([a, a, a], a);
    assert [a, a, a] + [a] == [a, a, a, a];
  }

  /** Three equal samples and a different one: the first value wins, and the new one is still counted. */
  lemma ModeOfThreeThenOne(a: int, b: int)
    requires a != b
    ensures ModeTrack([a, a, a, b]) == ModeTracker(Some(a), Some(b), 2, 0)
  {
    ModeTrackSnoc([], a);
    assert [] + [a] == [a];
    ModeTrackSnoc([a], a);
    assert [a] + [a] == [a, a];
    ModeTrackSnoc([a, a], a);
    assert [a, a] + [a] == [a, a, a];
    ModeTrackSnoc([a, a, a], b);
    assert [a, a, a] + [b] == [a, a, a, b];
  }

  /** Two pairs around a single sample tie, and the tie clears the mode. */
  lemma ModeOfPairsAroundSingle(a: int, b: int, c: int)
    requires a != b && b != c && a != c
    ensures ModeTrack([a, a, b, c, c]) == ModeTracker(None, Some(c), 0, 1)
  {
    ModeTrackSnoc([], a);
    assert [] + [a] == [a];
    ModeTrackSnoc([a], a);
    assert [a] + [a] == [a, a];
    ModeTrackSnoc([a, a], b);
    assert [a, a] + [b] == [a, a, b];
    ModeTrackSnoc([a, a, b], c);
    assert [a, a, b] + [c] == [a, a, b, c];
    ModeTrackSnoc([a, a, b, c], c);
    assert [a, a, b, c] + [c] == [a, a, b, c, c];
  }

  /**
    The tie quirk: after three a's and three b's the tie clears `mode` but keeps
    `next`, so a later pair of c's becomes the mode.
  */
  lemma ModeOfQuirk(a: int, b: int, c: int)
    requires a != b && b != c && a != c
    ensures ModeTrack([a, a, a, b, b, b, c, c]).mode == Some(c)
  {
    ModeOfThreeThenOne(a, b);
    ModeTrackSnoc([a, a, a, b], b);
    assert [a, a, a, b] + [b] == [a, a, a, b, b];
    ModeTrackSnoc([a, a, a, b, b], b);
    assert [a, a, a, b, b] + [b] == [a, a, a, b, b, b];
    ModeTrackSnoc([a, a, a, b, b, b], c);
    assert [a, a, a, b, b, b] + [c] == [a, a, a, b, b, b, c];
    ModeTrackSnoc([a, a, a, b, b, b, c], c);
    assert [a, a, a, b, b, b, c] + [c] == [a, a, a, b, b, b, c, c];
  }

  /** Sorted [1,1,1,2,2,2,3,3] reports 3, which is not a longest run. */
  lemma ModeCanReportShorterRun()
    ensures ModeTrack([1, 1, 1, 2, 2, 2, 3, 3]).mode == Some(3)
    ensures Count([1, 1, 1, 2, 2, 2, 3, 3], 3) < Count([1, 1, 1, 2, 2, 2, 3, 3], 1)
  {
    ModeOfQuirk(1, 2, 3);
    var s := [1, 1, 1, 2, 2, 2, 3, 3];
    assert multiset(s) == multiset{1, 1, 1, 2, 2, 2, 3, 3};
  }

  /** The mode tests: [3,5,7,9] has none, [3,3,3,3] and [3,3,3,4] have 3, [1,1,2,3,3] has none. */
  lemma ModeExamples()
    ensures ModeTrack([3, 5, 7, 9]).mode == None
    ensures ModeTrack([3, 3, 3, 3]).mode == Some(3)
    ensures ModeTrack([3, 3, 3, 4]).mode == Some(3)
    ensures ModeTrack([1, 1, 2, 3, 3]).mode == None
  {
    ModeOfFourDistinct(3, 5, 7, 9);
    ModeOfFourEqual(3);
    ModeOfThreeThenOne(3, 4);
    ModeOfPairsAroundSingle(1, 2, 3);
  }

  /** With no repeated sample there is no mode, whatever the order (a single sample included). */
  lemma ModeAbsentWithoutRepeats(data: seq<int>)
    requires forall v :: Count(data, v) <= 1
    ensures ModeTrack(data).mode == None
  {
    ModeRepeats(data);
  }

  // ---------------------------------------------------------------------------
  // modes_on_sorted

  /** A block of equal adjacent samples: the pair the source keeps in `values[j]` and `modes[j]`. */
  datatype Run = Run(value: int, len: nat)

  /** The runs of equal adjacent samples, left to right (run-length encoding). */
  function Runs(s: seq<int>): seq<Run>
    decreases |s|
  {
    if s == [] then []
    else
      var rs := Runs(s[..|s| - 1]);
      var x := s[|s| - 1];
      if rs != [] && rs[|rs| - 1].value == x then rs[..|rs| - 1] + [Run(x, rs[|rs| - 1].len + 1)]
      else rs + [Run(x, 1)]
  }

  function RunValues(rs: seq<Run>): (vs: seq<int>)
    ensures |vs| == |rs| && forall i :: 0 <= i < |rs| ==> vs[i] == rs[i].value
  {
    seq(|rs|, i requires 0 <= i < |rs| => rs[i].value)
  }

  function RunLengths(rs: seq<Run>): (ls: seq<int>)
    ensures |ls| == |rs| && forall i :: 0 <= i < |rs| ==> ls[i] == rs[i].len
  {
    seq(|rs|, i requires 0 <= i < |rs| => rs[i].len)
  }

  /** `highest_mode`: the longest run length, and never below its starting value 1. */
  function HighestRun(rs: seq<Run>): (h: nat)
    ensures h >= 1
    ensures forall i :: 0 <= i < |rs| ==> rs[i].len <= h
    ensures h == 1 || exists i :: 0 <= i < |rs| && rs[i].len == h
    decreases |rs|
  {
    if rs == [] then 1
    else
      var h := HighestRun(rs[..|rs| - 1]);
      if h < rs[|rs| - 1].len then rs[|rs| - 1].len else h
  }

  /** Putting a value below every element in front keeps a sequence strictly increasing. */
  lemma ConsIncreasing(x: int, rest: seq<int>)
    ensures StrictlyIncreasing(rest) && (forall v :: v in rest ==> x < v) ==> StrictlyIncreasing([x] + rest)
  {
    if StrictlyIncreasing(rest) && (forall v :: v in rest ==> x < v) {
      forall i, j | 0 <= i < j < |[x] + rest| ensures ([x] + rest)[i] < ([x] + rest)[j] {
        assert ([x] + rest)[j] == rest[j - 1] && rest[j - 1] in rest;
        if i > 0 {
          assert ([x] + rest)[i] == rest[i - 1];
        }
      }
    }
  }

  /** The zip/filter/map chain: the values whose count equals `highest`, kept only when `highest > 1`. */
  function SelectModes(counts: seq<int>, values: seq<int>, highest: int): (r: seq<int>)
    ensures forall v :: v in r <==>
      exists i :: 0 <= i < |counts| && i < |values| && counts[i] == highest && highest > 1 && values[i] == v
    ensures StrictlyIncreasing(values) ==> StrictlyIncreasing(r)
    decreases |counts|
  {
    if counts == [] || values == [] then []
    else
      var rest := SelectModes(counts[1..], values[1..], highest);
      assert forall v :: v in rest ==> exists i :: 1 <= i < |values| && values[i] == v;
      assert StrictlyIncreasing(values) ==> StrictlyIncreasing(values[1..]) && forall v :: v in rest ==> values[0] < v;
      ConsIncreasing(values[0], rest);
      if counts[0] == highest && highest > 1 then [values[0]] + rest else rest
  }

  /** What modes_on_sorted computes, as a function of the samples. */
  function ModesOf(data: seq<int>): seq<int> {
    var rs := Runs(data);
    SelectModes(RunLengths(rs), RunValues(rs), HighestRun(rs))
  }

  /** `v` occurs at least twice and no value occurs more often. */
  ghost predicate IsModal(s: seq<int>, v: int) {
    Count(s, v) >= 2 && forall w :: Count(s, w) <= Count(s, v)
  }

  /** The loop state of modes_on_sorted: `values`, `modes` (their counts), `highest_mode` and `count`. */
  datatype ModesScan = ModesScan(values: seq<int>, modes: seq<int>, highest: int, count: int)

  /** `count` indexes the last entry, and every value has its count. */
  predicate ScanShape(t: ModesScan) {
    |t.modes| == |t.values| && t.count == if t.values == [] then 0 else |t.values| - 1
  }

  /** One iteration of the loop over the samples. */
  function ModesStep(t: ModesScan, x: int): (t': ModesScan)
    requires ScanShape(t)
    ensures ScanShape(t')
  {
    if t.values == [] then ModesScan(t.values + [x], t.modes + [1], t.highest, t.count)
    else if x == t.values[t.count] then
      var m := t.modes[t.count] + 1;
      ModesScan(t.values, t.modes[t.count := m], if t.highest < m then m else t.highest, t.count)
    else ModesScan(t.values + [x], t.modes + [1], t.highest, t.count + 1)
  }

  /** The loop state after the given samples. */
  function ScanModes(s: seq<int>): (t: ModesScan)
    ensures ScanShape(t)
    decreases |s|
  {
    if s == [] then ModesScan([], [], 1, 0) else ModesStep(ScanModes(s[..|s| - 1]), s[|s| - 1])
  }

  /** The loop variables hold the run values, the run lengths and the longest run of `rs`. */
  ghost predicate ScanMatches(t: ModesScan, rs: seq<Run>) {
    t.values == RunValues(rs) && t.modes == RunLengths(rs) && t.highest == HighestRun(rs)
  }

  /** The loop builds the run-length encoding of the samples and tracks the longest run. */
  lemma {:induction false} ScanIsRuns(s: seq<int>)
    ensures ScanMatches(ScanModes(s), Runs(s))
    decreases |s|
  {
    if s != [] {
      var p, x := s[..|s| - 1], s[|s| - 1];
      assert s == p + [x];
      ScanIsRuns(p);
      ScanStep(p, x);
    }
  }

  lemma ScanStep(p: seq<int>, x: int)
    requires ScanMatches(ScanModes(p), Runs(p))
    ensures ScanMatches(ScanModes(p + [x]), Runs(p + [x]))
  {
    var t, rs := ScanModes(p), Runs(p);
    if rs != [] && rs[|rs| - 1].value == x {
      var front, n := rs[..|rs| - 1], rs[|rs| - 1].len;
      assert rs == front + [Run(x, n)];
      RunsExtendLast(p, x, front, n);
      ScanExtendRun(t, x, front, n);
    } else {
      RunsStartNew(p, x, rs);
      ScanOpenRun(t, x, rs);
    }
    ScanModesSnoc(p, x, Runs(p + [x]));
  }

  /** A sample equal to the last value: `modes[count]` grows, as the last run does. */
  lemma ScanExtendRun(t: ModesScan, x: int, front: seq<Run>, n: nat)
    requires ScanShape(t) && ScanMatches(t, front + [Run(x, n)])
    ensures ScanMatches(ModesStep(t, x), front + [Run(x, n + 1)])
  {
    LengthenLastRun(front, x, n, n + 1);
    var k := |front|;
    assert t.values != [] && t.count == k;
    assert t.values[k] == x && t.modes[k] == n;
    ModesStepSame(t, x, k, n);
  }

  lemma ScanOpenRun(t: ModesScan, x: int, rs: seq<Run>)
    requires ScanShape(t) && ScanMatches(t, rs)
    requires rs == [] || rs[|rs| - 1].value != x
    ensures ScanMatches(ModesStep(t, x), rs + [Run(x, 1)])
  {
    AppendRun(rs, Run(x, 1));
    ScanStepNew(t, x, rs, rs + [Run(x, 1)]);
  }

  /** The loop state after one more sample is one more step of the loop. */
  lemma ScanModesSnoc(p: seq<int>, x: int, rs: seq<Run>)
    requires ScanMatches(ModesStep(ScanModes(p), x), rs)
    ensures ScanMatches(ScanModes(p + [x]), rs)
  {
    assert (p + [x])[..|p|] == p;
  }

  lemma ModesStepSame(t: ModesScan, x: int, k: int, n: int)
    requires ScanShape(t) && t.values != [] && t.count == k && t.values[k] == x && t.modes[k] == n
    ensures ModesStep(t, x).values == t.values
    ensures ModesStep(t, x).modes == t.modes[k := n + 1]
    ensures ModesStep(t, x).highest == if t.highest < n + 1 then n + 1 else t.highest
  {
  }


  /** Any other sample: a new value with count 1, as a new run. */
  lemma ScanStepNew(t: ModesScan, x: int, rs: seq<Run>, rs': seq<Run>)
    requires ScanShape(t) && ScanMatches(t, rs)
    requires !(rs != [] && rs[|rs| - 1].value == x)
    requires RunValues(rs') == RunValues(rs) + [x]
    requires RunLengths(rs') == RunLengths(rs) + [1]
    requires HighestRun(rs') == HighestRun(rs)
    ensures ScanMatches(ModesStep(t, x), rs')
  {
    if rs != [] {
      assert t.count == |rs| - 1 && t.values[t.count] == rs[|rs| - 1].value;
    }
  }

  method ModesOnSorted(data: seq<int>) returns (r: seq<int>)
    ensures r == ModesOf(data)
    ensures Sorted(data) ==> StrictlyIncreasing(r) && forall v :: v in r <==> IsModal(data, v)
  {
    var highest := 1;
    var modes: seq<int> := [];
    var values: seq<int> := [];
    var count := 0;
    for i := 0 to |data|
      invariant ModesScan(values, modes, highest, count) == ScanModes(data[..i])
    {
      var x := data[i];
      assert data[..i + 1][..i] == data[..i];
      if values == [] {
        values := values + [x];
        modes := modes + [1];
        continue;
      }
      if x == values[count] {
        modes := modes[count := modes[count] + 1];
        if highest < modes[count] {
          highest := modes[count];
        }
      } else {
        values := values + [x];
        modes := modes + [1];
        count := count + 1;
      }
    }
    assert data[..|data|] == data;
    ScanIsRuns(data);
    r := SelectModes(modes, values, highest);
    if Sorted(data) {
      ModesCharacterised(data);
    }
  }

  lemma LengthenLastRun(front: seq<Run>, v: int, n: nat, c: nat)
    requires n < c
    ensures var rs, rs' := front + [Run(v, n)], front + [Run(v, c)];
      && RunValues(rs') == RunValues(rs)
      && RunLengths(rs') == RunLengths(rs)[|front| := c]
      && HighestRun(rs') == (if HighestRun(rs) < c then c else HighestRun(rs))
  {
    var rs, rs' := front + [Run(v, n)], front + [Run(v, c)];
    assert rs[..|rs| - 1] == front && rs'[..|rs'| - 1] == front;
    var vs, vs' := RunValues(rs), RunValues(rs');
    assert forall i :: 0 <= i < |vs| ==> vs'[i] == vs[i];
    var ls, ls' := RunLengths(rs), RunLengths(rs');
    assert forall i :: 0 <= i < |ls| ==> ls'[i] == ls[|front| := c][i];
  }

  lemma AppendRun(rs: seq<Run>, run: Run)
    requires run.len == 1
    ensures && RunValues(rs + [run]) == RunValues(rs) + [run.value]
            && RunLengths(rs + [run]) == RunLengths(rs) + [1]
            && HighestRun(rs + [run]) == HighestRun(rs)
  {
    var rs' := rs + [run];
    assert rs'[..|rs'| - 1] == rs;
    var vs, vs' := RunValues(rs), RunValues(rs');
    assert forall i :: 0 <= i < |vs'| ==> vs'[i] == (vs + [run.value])[i];
    var ls, ls' := RunLengths(rs), RunLengths(rs');
    assert forall i :: 0 <= i < |ls'| ==> ls'[i] == (ls + [1])[i];
  }

  /** Runs never lose a sample value and never invent one; the last run holds the last sample. */
  lemma {:induction false} RunsCover(s: seq<int>)
    ensures CoveredBy(s, Runs(s))
  {
    if s != [] {
      var p, x := s[..|s| - 1], s[|s| - 1];
      assert s == p + [x];
      RunsCover(p);
      var rs := Runs(p);
      if rs != [] && rs[|rs| - 1].value == x {
        var front, n := rs[..|rs| - 1], rs[|rs| - 1].len;
        assert rs == front + [Run(x, n)];
        RunsExtendLast(p, x, front, n);
        CoverExtend(p, x, front, n);
      } else {
        RunsStartNew(p, x, rs);
        CoverNew(p, x, rs);
      }
    }
  }

  /** Every run is non-empty with a value among the samples, every sample heads a run, and the last run holds the last sample. */
  ghost predicate CoveredBy(s: seq<int>, rs: seq<Run>) {
    && (forall i :: 0 <= i < |rs| ==> rs[i].len >= 1 && rs[i].value in s)
    && (forall v :: v in s ==> exists i :: 0 <= i < |rs| && rs[i].value == v)
    && (|s| > 0 ==> |rs| > 0 && rs[|rs| - 1].value == s[|s| - 1])
  }

  lemma CoverExtend(p: seq<int>, x: int, front: seq<Run>, n: nat)
    requires CoveredBy(p, front + [Run(x, n)])
    ensures CoveredBy(p + [x], front + [Run(x, n + 1)])
  {
    var rs, rs' := front + [Run(x, n)], front + [Run(x, n + 1)];
    assert forall i :: 0 <= i < |rs| ==> rs'[i].value == rs[i].value;
    forall v | v in p + [x] ensures exists i :: 0 <= i < |rs'| && rs'[i].value == v {
      if v != x {
        assert v in p;
        var i :| 0 <= i < |rs| && rs[i].value == v;
        assert rs'[i].value == v;
      } else {
        assert rs'[|front|].value == v;
      }
    }
  }

  lemma CoverNew(p: seq<int>, x: int, rs: seq<Run>)
    requires CoveredBy(p, rs)
    ensures CoveredBy(p + [x], rs + [Run(x, 1)])
  {
    var rs' := rs + [Run(x, 1)];
    forall v | v in p + [x] ensures exists i :: 0 <= i < |rs'| && rs'[i].value == v {
      if v != x {
        assert v in p;
        var i :| 0 <= i < |rs| && rs[i].value == v;
        assert rs'[i].value == v;
      } else {
        assert rs'[|rs|].value == v;
      }
    }
  }

  ghost predicate RunsAscend(rs: seq<Run>) {
    forall i, j :: 0 <= i < j < |rs| ==> rs[i].value < rs[j].value
  }

  ghost predicate RunsMatchCounts(rs: seq<Run>, s: seq<int>) {
    forall i :: 0 <= i < |rs| ==> rs[i].len == Count(s, rs[i].value)
  }

  /** A sample equal to the last run lengthens it. */
  lemma ExtendLastRun(rs: seq<Run>, p: seq<int>, x: int)
    requires RunsAscend(rs) && RunsMatchCounts(rs, p)
    requires rs != [] && rs[|rs| - 1].value == x
    ensures RunsAscend(rs[..|rs| - 1] + [Run(x, rs[|rs| - 1].len + 1)])
    ensures RunsMatchCounts(rs[..|rs| - 1] + [Run(x, rs[|rs| - 1].len + 1)], p + [x])
  {
    assert multiset(p + [x]) == multiset(p) + multiset{x};
    forall i | 0 <= i < |rs| - 1 ensures Count(p + [x], rs[i].value) == Count(p, rs[i].value) {
      assert rs[i].value < x;
    }
  }

  /** A sample above every earlier sample opens a new run. */
  lemma StartNewRun(rs: seq<Run>, p: seq<int>, x: int)
    requires RunsAscend(rs) && RunsMatchCounts(rs, p)
    requires forall i :: 0 <= i < |rs| ==> rs[i].value < x
    requires x !in p
    ensures RunsAscend(rs + [Run(x, 1)])
    ensures RunsMatchCounts(rs + [Run(x, 1)], p + [x])
  {
    assert multiset(p + [x]) == multiset(p) + multiset{x};
    assert x !in multiset(p);
  }

  /** In sorted samples, a last sample that differs from the one before it exceeds all earlier ones. */
  lemma SortedAboveRest(p: seq<int>, x: int)
    requires Sorted(p + [x])
    requires p != [] ==> p[|p| - 1] != x
    ensures forall y :: y in p ==> y < x
  {
    forall y | y in p ensures y < x {
      var i :| 0 <= i < |p| && p[i] == y;
      assert (p + [x])[i] <= (p + [x])[|p| - 1] <= (p + [x])[|p|];
    }
  }

  /** In sorted samples, a sample that differs from the last run's value opens a run above all earlier ones. */
  lemma NewRunOfSorted(p: seq<int>, x: int)
    requires Sorted(p + [x])
    requires RunsAscend(Runs(p)) && RunsMatchCounts(Runs(p), p)
    requires !(Runs(p) != [] && Runs(p)[|Runs(p)| - 1].value == x)
    ensures RunsAscend(Runs(p) + [Run(x, 1)]) && RunsMatchCounts(Runs(p) + [Run(x, 1)], p + [x])
  {
    var rs := Runs(p);
    RunsCover(p);
    SortedAboveRest(p, x);
    StartNewRun(rs, p, x);
  }

  /** On sorted samples each value forms exactly one run, runs ascend strictly, and a run's length is its value's count. */
  lemma {:induction false} RunsOfSorted(s: seq<int>)
    requires Sorted(s)
    ensures RunsAscend(Runs(s)) && RunsMatchCounts(Runs(s), s)
  {
    if s != [] {
      var p, x := s[..|s| - 1], s[|s| - 1];
      assert s == p + [x];
      assert Sorted(p);
      RunsOfSorted(p);
      SortedRunsStep(p, x);
    }
  }

  lemma SortedRunsStep(p: seq<int>, x: int)
    requires Sorted(p + [x])
    requires RunsAscend(Runs(p)) && RunsMatchCounts(Runs(p), p)
    ensures RunsAscend(Runs(p + [x])) && RunsMatchCounts(Runs(p + [x]), p + [x])
  {
    var rs := Runs(p);
    if rs != [] && rs[|rs| - 1].value == x {
      var front, n := rs[..|rs| - 1], rs[|rs| - 1].len;
      assert rs == front + [Run(x, n)];
      RunsExtendLast(p, x, front, n);
      ExtendLastRun(rs, p, x);
    } else {
      RunsStartNew(p, x, rs);
      NewRunOfSorted(p, x);
    }
  }

  /** A value modes_on_sorted reports occurs at least twice and as often as any other. */
  lemma SelectedIsModal(data: seq<int>, v: int)
    requires Sorted(data) && v in ModesOf(data)
    ensures IsModal(data, v)
  {
    var rs := Runs(data);
    var h := HighestRun(rs);
    RunsCover(data);
    RunsOfSorted(data);
    var i :| 0 <= i < |rs| && RunLengths(rs)[i] == h && h > 1 && RunValues(rs)[i] == v;
    forall w ensures Count(data, w) <= Count(data, v) {
      if w in data {
        var j :| 0 <= j < |rs| && rs[j].value == w;
      } else {
        assert w !in multiset(data);
      }
    }
  }

  /** Every value occurring at least twice and as often as any other is reported. */
  lemma ModalIsSelected(data: seq<int>, v: int)
    requires Sorted(data) && IsModal(data, v)
    ensures v in ModesOf(data)
  {
    var rs := Runs(data);
    RunsCover(data);
    RunsOfSorted(data);
    assert v in multiset(data);
    assert v in data;
    var i :| 0 <= i < |rs| && rs[i].value == v;
    ModalRunSelected(rs, data, v, i);
  }

  /** A run whose value is modal has the longest length, and that length exceeds 1. */
  lemma ModalRunSelected(rs: seq<Run>, s: seq<int>, v: int, i: int)
    requires RunsMatchCounts(rs, s) && IsModal(s, v)
    requires 0 <= i < |rs| && rs[i].value == v
    ensures v in SelectModes(RunLengths(rs), RunValues(rs), HighestRun(rs))
  {
    var h := HighestRun(rs);
    assert rs[i].len == Count(s, v);
    if h != 1 {
      var j :| 0 <= j < |rs| && rs[j].len == h;
      assert rs[j].len == Count(s, rs[j].value) <= Count(s, v);
    }
    assert RunLengths(rs)[i] == h && RunValues(rs)[i] == v;
  }

  /** On sorted data modes_on_sorted returns, ascending, exactly the values that occur at least twice and at least as often as any other. */
  lemma ModesCharacterised(data: seq<int>)
    requires Sorted(data)
    ensures StrictlyIncreasing(ModesOf(data))
    ensures forall v :: v in ModesOf(data) <==> IsModal(data, v)
  {
    RunsOfSorted(data);
    assert StrictlyIncreasing(RunValues(Runs(data)));
    forall v ensures v in ModesOf(data) <==> IsModal(data, v) {
      if v in ModesOf(data) {
        SelectedIsModal(data, v);
      }
      if IsModal(data, v) {
        ModalIsSelected(data, v);
      }
    }
  }

  // The documented inputs are instances of patterns over arbitrary values.

  /** A sample equal to the last run's value lengthens it. */
  lemma RunsExtendLast(p: seq<int>, x: int, front: seq<Run>, n: nat)
    requires Runs(p) == front + [Run(x, n)]
    ensures Runs(p + [x]) == front + [Run(x, n + 1)]
  {
    assert (p + [x])[..|p|] == p;
    var rs := front + [Run(x, n)];
    assert rs[..|rs| - 1] == front;
  }

  /** Any other sample opens a run of length 1. */
  lemma RunsStartNew(p: seq<int>, x: int, rs: seq<Run>)
    requires Runs(p) == rs && (rs == [] || rs[|rs| - 1].value != x)
    ensures Runs(p + [x]) == rs + [Run(x, 1)]
  {
    assert (p + [x])[..|p|] == p;
  }

  lemma RunsOfOne(a: int)
    ensures Runs([a]) == [Run(a, 1)]
  {
    RunsStartNew([], a, []);
    assert [] + [a] == [a];
  }

  lemma RunsOfPair(a: int)
    ensures Runs([a, a]) == [Run(a, 2)]
  {
    RunsOfOne(a);
    RunsExtendLast([a], a, [], 1);
    assert [a] + [a] == [a, a];
  }

  lemma RunsOfTriple(a: int)
    ensures Runs([a, a, a]) == [Run(a, 3)]
  {
    RunsOfPair(a);
    RunsExtendLast([a, a], a, [], 2);
    assert [a, a] + [a] == [a, a, a];
  }

  lemma RunsOfFourEqual(a: int)
    ensures Runs([a, a, a, a]) == [Run(a, 4)]
  {
    RunsOfTriple(a);
    RunsExtendLast([a, a, a], a, [], 3);
    assert [a, a, a] + [a] == [a, a, a, a];
  }

  lemma RunsOfThreeThenOne(a: int, b: int)
    requires a != b
    ensures Runs([a, a, a, b]) == [Run(a, 3), Run(b, 1)]
  {
    RunsOfTriple(a);
    RunsStartNew([a, a, a], b, [Run(a, 3)]);
    assert [a, a, a] + [b] == [a, a, a, b];
  }

  lemma RunsOfTwo(a: int, b: int)
    requires a != b
    ensures Runs([a, b]) == [Run(a, 1), Run(b, 1)]
  {
    RunsOfOne(a);
    RunsStartNew([a], b, [Run(a, 1)]);
    assert [a] + [b] == [a, b];
  }

  lemma RunsOfThreeDistinct(a: int, b: int, c: int)
    requires a != b && b != c
    ensures Runs([a, b, c]) == [Run(a, 1), Run(b, 1), Run(c, 1)]
  {
    RunsOfTwo(a, b);
    RunsStartNew([a, b], c, [Run(a, 1), Run(b, 1)]);
    assert [a, b] + [c] == [a, b, c];
  }

  lemma RunsOfFourDistinct(a: int, b: int, c: int, d: int)
    requires a != b && b != c && c != d
    ensures Runs([a, b, c, d]) == [Run(a, 1), Run(b, 1), Run(c, 1), Run(d, 1)]
  {
    RunsOfThreeDistinct(a, b, c);
    RunsStartNew([a, b, c], d, [Run(a, 1), Run(b, 1), Run(c, 1)]);
    assert [a, b, c] + [d] == [a, b, c, d];
  }

  lemma RunsOfPairThenOne(a: int, b: int)
    requires a != b
    ensures Runs([a, a, b]) == [Run(a, 2), Run(b, 1)]
  {
    RunsOfPair(a);
    RunsStartNew([a, a], b, [Run(a, 2)]);
    assert [a, a] + [b] == [a, a, b];
  }

  lemma RunsOfTwoPairs(a: int, b: int)
    requires a != b
    ensures Runs([a, a, b, b]) == [Run(a, 2), Run(b, 2)]
  {
    RunsOfPairThenOne(a, b);
    RunsExtendLast([a, a, b], b, [Run(a, 2)], 1);
    assert [a, a, b] + [b] == [a, a, b, b];
  }

  lemma RunsOfPairThenTwo(a: int, b: int, c: int)
    requires a != b && b != c
    ensures Runs([a, a, b, c]) == [Run(a, 2), Run(b, 1), Run(c, 1)]
  {
    RunsOfPairThenOne(a, b);
    RunsStartNew([a, a, b], c, [Run(a, 2), Run(b, 1)]);
    assert [a, a, b] + [c] == [a, a, b, c];
  }

  lemma RunsOfPairsAroundSingle(a: int, b: int, c: int)
    requires a != b && b != c
    ensures Runs([a, a, b, c, c]) == [Run(a, 2), Run(b, 1), Run(c, 2)]
  {
    RunsOfPairThenTwo(a, b, c);
    RunsExtendLast([a, a, b, c], c, [Run(a, 2), Run(b, 1)], 1);
    assert [a, a, b, c] + [c] == [a, a, b, c, c];
  }

  /** With no run longer than 1 the filter keeps nothing. */
  lemma SelectNothingBelowTwo(counts: seq<int>, values: seq<int>, highest: int)
    requires highest <= 1
    ensures SelectModes(counts, values, highest) == []
  {
    FirstIsMember(SelectModes(counts, values, highest));
  }

  lemma ModesOfFourDistinct(a: int, b: int, c: int, d: int)
    requires a != b && b != c && c != d
    ensures ModesOf([a, b, c, d]) == []
  {
    RunsOfFourDistinct(a, b, c, d);
    var rs := [Run(a, 1), Run(b, 1), Run(c, 1), Run(d, 1)];
    assert HighestRun(rs) == 1;
    SelectNothingBelowTwo(RunLengths(rs), RunValues(rs), 1);
  }

  lemma ModesOfFourEqual(a: int)
    ensures ModesOf([a, a, a, a]) == [a]
  {
    RunsOfFourEqual(a);
    var rs := [Run(a, 4)];
    assert HighestRun(rs) == 4 by {
      assert rs[..0] == [];
    }
    assert RunLengths(rs) == [4] && RunValues(rs) == [a];
    assert SelectModes([4], [a], 4) == [a] by {
      assert [4][1..] == [] && [a][1..] == [];
    }
  }

  lemma ModesOfThreeThenOne(a: int, b: int)
    requires a != b
    ensures ModesOf([a, a, a, b]) == [a]
  {
    RunsOfThreeThenOne(a, b);
    var rs := [Run(a, 3), Run(b, 1)];
    assert RunLengths(rs) == [3, 1] && RunValues(rs) == [a, b];
    assert HighestRun(rs) == 3 by {
      assert rs[..1] == [Run(a, 3)];
      assert [Run(a, 3)][..0] == [];
    }
    assert SelectModes([3, 1], [a, b], 3) == [a] by {
      assert [3, 1][1..] == [1] && [a, b][1..] == [b];
      assert [1][1..] == [] && [b][1..] == [];
    }
  }

  /** Two equally long runs are both modes, in sample order. */
  lemma ModesOfTwoPairs(a: int, b: int)
    requires a != b
    ensures ModesOf([a, a, b, b]) == [a, b]
  {
    RunsOfTwoPairs(a, b);
    var rs := [Run(a, 2), Run(b, 2)];
    assert RunLengths(rs) == [2, 2] && RunValues(rs) == [a, b];
    assert HighestRun(rs) == 2 by {
      assert rs[..1] == [Run(a, 2)];
      assert [Run(a, 2)][..0] == [];
    }
    assert SelectModes([2, 2], [a, b], 2) == [a, b] by {
      assert [2, 2][1..] == [2] && [a, b][1..] == [b];
      assert [2][1..] == [] && [b][1..] == [];
    }
  }

  /** Two pairs around a single sample: both pairs are modes (where `mode` reports nothing). */
  lemma ModesOfPairsAroundSingle(a: int, b: int, c: int)
    requires a != b && b != c
    ensures ModesOf([a, a, b, c, c]) == [a, c]
  {
    RunsOfPairsAroundSingle(a, b, c);
    var rs := [Run(a, 2), Run(b, 1), Run(c, 2)];
    assert RunLengths(rs) == [2, 1, 2] && RunValues(rs) == [a, b, c];
    HighestOfPairsAroundSingle(a, b, c);
    SelectPairsAroundSingle(a, b, c);
  }

  lemma HighestOfPairsAroundSingle(a: int, b: int, c: int)
    ensures HighestRun([Run(a, 2), Run(b, 1), Run(c, 2)]) == 2
  {
    var rs := [Run(a, 2), Run(b, 1), Run(c, 2)];
    assert rs[..2] == [Run(a, 2), Run(b, 1)];
    assert [Run(a, 2), Run(b, 1)][..1] == [Run(a, 2)];
    assert [Run(a, 2)][..0] == [];
  }

  lemma SelectPairsAroundSingle(a: int, b: int, c: int)
    ensures SelectModes([2, 1, 2], [a, b, c], 2) == [a, c]
  {
    assert [2, 1, 2][1..] == [1, 2] && [a, b, c][1..] == [b, c];
    assert [1, 2][1..] == [2] && [b, c][1..] == [c];
    assert [2][1..] == [] && [c][1..] == [];
  }

  /**
    The modes tests and examples: [] and [3,5,7,9] have none, [3,3,3,3] and
    sorted [4,3,3,3] have [3], [3,3,4,4] has [3,4], [1,1,2,2] has [1,2] and
    [1,1,2,3,3] has [1,3].
  */
  lemma ModesExamples()
    ensures ModesOf([]) == []
    ensures ModesOf([3, 5, 7, 9]) == []
    ensures ModesOf([3, 3, 3, 3]) == [3]
    ensures ModesOf([3, 3, 3, 4]) == [3]
    ensures ModesOf([3, 3, 4, 4]) == [3, 4]
    ensures ModesOf([1, 1, 2, 2]) == [1, 2]
    ensures ModesOf([1, 1, 2, 3, 3]) == [1, 3]
  {
    ModesOfFourDistinct(3, 5, 7, 9);
    ModesOfFourEqual(3);
    ModesOfThreeThenOne(3, 4);
    ModesOfTwoPairs(3, 4);
    ModesOfTwoPairs(1, 2);
    ModesOfPairsAroundSingle(1, 2, 3);
  }

  /** Without a repeated sample there are no modes. */
  lemma ModesEmptyWithoutRepeats(data: seq<int>)
    requires Sorted(data) && forall v :: Count(data, v) <= 1
    ensures ModesOf(data) == []
  {
    ModesCharacterised(data);
    FirstIsMember(ModesOf(data));
    if ModesOf(data) != [] {
      assert false;
    }
  }

  /**
    Solver helper: names an element of a non-empty sequence. Stated as a lemma so
    that the index is checked outside the branch that a caller then rules out.
  */
  lemma FirstIsMember(s: seq<int>)
    ensures s != [] ==> s[0] in s
  {
  }

  // ---------------------------------------------------------------------------
  // cardinality: dedup of the sorted samples

  /** `Vec::dedup`: drop every sample equal to the one before it. */
  function Dedup(s: seq<int>): (r: seq<int>)
    ensures Elems(r) == Elems(s)
    ensures |r| <= |s|
    ensures Sorted(s) ==> StrictlyIncreasing(r)
    decreases |s|
  {
    if |s| <= 1 then s
    else
      var rest := Dedup(s[1..]);
      assert s == [s[0]] + s[1..];
      assert Elems(s) == {s[0]} + Elems(s[1..]);
      if s[0] == s[1] then rest
      else
        assert Sorted(s) ==> Sorted(s[1..]) && forall y :: y in rest ==> y in Elems(s[1..]) && s[0] < y;
        ConsIncreasing(s[0], rest);
        [s[0]] + rest
  }

  /** A strictly increasing sequence has as many distinct values as elements. */
  lemma {:induction false} DistinctCount(t: seq<int>)
    requires StrictlyIncreasing(t)
    ensures |Elems(t)| == |t|
  {
    if t != [] {
      DistinctCount(t[1..]);
      assert t == [t[0]] + t[1..];
      assert Elems(t) == {t[0]} + Elems(t[1..]);
      assert t[0] !in Elems(t[1..]);
    }
  }

  /** Deduplicating sorted samples leaves one element per distinct value. */
  lemma DedupCountsDistinct(s: seq<int>)
    requires Sorted(s)
    ensures |Dedup(s)| == |Elems(s)|
  {
    DistinctCount(Dedup(s));
  }
}
