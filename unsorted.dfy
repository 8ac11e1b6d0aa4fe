/**
  `Unsorted`, the lazily sorted collection of samples (src/unsorted.rs). Samples
  are appended in arrival order; a query sorts the vector and then runs one of
  the helpers of `SortedStats` over it. The `sorted` flag is true only for a
  freshly created collection: `sort` never sets it, so every query after the
  first insertion sorts again (the result is the same, since sorting sorted data
  changes nothing).
*/
module UnsortedStats {
  import opened Optional
  import opened SortedStats

  class Unsorted {
    var data: seq<int>
    var sorted: bool

    /** The flag never claims an order the samples do not have. */
    ghost predicate Valid()
      reads this
    {
      sorted ==> Sorted(data)
    }

    /** `new` / `default`: no samples, flagged as sorted. */
    constructor ()
      ensures data == [] && sorted
      ensures Valid()
    {
      data := [];
      sorted := true;
    }

    method Add(v: int)
      modifies this
      ensures data == old(data) + [v] && !sorted
      ensures Len() == old(Len()) + 1 && Valid()
    {
      Dirtied();
      data := data + [v];
    }

    function Len(): (n: nat)
      reads this
      ensures n == |data|
    {
      |data|
    }

    function IsEmpty(): (b: bool)
      reads this
      ensures b <==> Len() == 0
    {
      data == []
    }

    /** Sorts only when the flag is down, and leaves the flag as it was. */
    method Sort()
      requires Valid()
      modifies this
      ensures data == SortInts(old(data)) && sorted == old(sorted)
      ensures Sorted(data) && multiset(data) == multiset(old(data))
      ensures Valid()
    {
      if !sorted {
        SortIntsSortsAndPermutes(data);
        data := SortInts(data);
      } else {
        SortedIsSortInts(data, data);
      }
    }

    method Dirtied()
      modifies this
      ensures data == old(data) && !sorted
    {
      sorted := false;
    }

    /** The number of distinct samples. */
    method Cardinality() returns (c: nat)
      requires Valid()
      modifies this
      ensures data == SortInts(old(data)) && sorted == old(sorted) && Valid()
      ensures c == |Elems(old(data))|
      ensures c <= |old(data)| && (old(data) == [] ==> c == 0)
    {
      Sort();
      var distinct := data;
      distinct := Dedup(distinct);
      c := |distinct|;
      DedupCountsDistinct(data);
      SameElems(data, old(data));
    }

    method Mode() returns (r: Option<int>)
      requires Valid()
      modifies this
      ensures data == SortInts(old(data)) && sorted == old(sorted) && Valid()
      ensures r == ModeTrack(SortInts(old(data))).mode
      ensures r.Some? ==> Count(old(data), r.value) >= 2
      ensures forall v :: UniqueLongestRun(old(data), v) ==> r == Some(v)
    {
      Sort();
      r := ModeOnSorted(data);
      forall v | UniqueLongestRun(old(data), v) ensures UniqueLongestRun(data, v) {
        assert forall w :: Count(data, w) == Count(old(data), w);
      }
    }

    method Modes() returns (r: seq<int>)
      requires Valid()
      modifies this
      ensures data == SortInts(old(data)) && sorted == old(sorted) && Valid()
      ensures r == ModesOf(SortInts(old(data)))
      ensures StrictlyIncreasing(r) && forall v :: v in r <==> IsModal(old(data), v)
    {
      Sort();
      r := ModesOnSorted(data);
      assert forall w :: Count(data, w) == Count(old(data), w);
    }

    method Median() returns (r: Option<real>)
      requires Valid()
      modifies this
      ensures data == SortInts(old(data)) && sorted == old(sorted) && Valid()
      ensures r == MedianOnSorted(SortInts(old(data)))
      ensures r.None? <==> old(data) == []
    {
      Sort();
      r := MedianOnSorted(data);
    }

    method Quartiles() returns (r: Option<(real, real, real)>)
      requires Valid()
      modifies this
      ensures data == SortInts(old(data)) && sorted == old(sorted) && Valid()
      ensures r == QuartilesOnSorted(SortInts(old(data)))
      ensures r.None? <==> |old(data)| < 3
    {
      Sort();
      r := QuartilesOnSorted(data);
    }

    /** `Commute::merge`: takes over every sample of `other`, after this collection's own. */
    method Merge(other: Unsorted)
      modifies this
      ensures data == old(data) + old(other.data) && !sorted
      ensures Len() == old(Len()) + old(other.Len()) && Valid()
    {
      Dirtied();
      data := data + other.data;
    }

    method Extend(it: seq<int>)
      modifies this
      ensures data == old(data) + it && !sorted
      ensures Len() == old(Len()) + |it| && Valid()
    {
      Dirtied();
      data := data + it;
    }
  }

  /** Sorting keeps the set of distinct values. */
  lemma SameElems(s: seq<int>, t: seq<int>)
    requires multiset(s) == multiset(t)
    ensures Elems(s) == Elems(t)
  {
    forall x ensures x in Elems(s) <==> x in Elems(t) {
      assert x in s <==> x in multiset(s);
      assert x in t <==> x in multiset(t);
    }
  }

  /** `from_iter`: a new collection extended with the stream. */
  method FromIter(it: seq<int>) returns (u: Unsorted)
    ensures fresh(u) && u.data == it && !u.sorted && u.Valid()
  {
    u := new Unsorted();
    u.Extend(it);
  }

  /** The stream functions `median`, `quartiles`, `mode` and `modes`: collect, then query. */
  method StreamMedian(it: seq<int>) returns (r: Option<real>)
    ensures r == MedianOnSorted(SortInts(it))
  {
    var u := FromIter(it);
    r := u.Median();
  }

  method StreamQuartiles(it: seq<int>) returns (r: Option<(real, real, real)>)
    ensures r == QuartilesOnSorted(SortInts(it))
  {
    var u := FromIter(it);
    r := u.Quartiles();
  }

  method StreamMode(it: seq<int>) returns (r: Option<int>)
    ensures r == ModeTrack(SortInts(it)).mode
    ensures r.Some? ==> Count(it, r.value) >= 2
    ensures forall v :: UniqueLongestRun(it, v) ==> r == Some(v)
  {
    var u := FromIter(it);
    r := u.Mode();
  }

  method StreamModes(it: seq<int>) returns (r: seq<int>)
    ensures r == ModesOf(SortInts(it))
    ensures StrictlyIncreasing(r) && forall v :: v in r <==> IsModal(it, v)
  {
    var u := FromIter(it);
    r := u.Modes();
  }

  /**
    Merging is commutative up to the order of the samples, and no query looks at
    that order: every query sorts first, and the sorted samples depend only on
    the multiset of samples.
  */
  lemma MergeCommutes(a: seq<int>, b: seq<int>)
    ensures SortInts(a + b) == SortInts(b + a)
  {
    SortIntsDependsOnlyOnMultiset(a + b, b + a);
  }

  lemma SortExampleMode()
    ensures SortInts([4, 3, 3, 3]) == [3, 3, 3, 4]
  {
    assert multiset([3, 3, 3, 4]) == multiset([4, 3, 3, 3]);
    SortedIsSortInts([3, 3, 3, 4], [4, 3, 3, 3]);
  }

  lemma SortExampleMedian()
    ensures SortInts([9, 3, 7, 5]) == [3, 5, 7, 9]
  {
    assert multiset([3, 5, 7, 9]) == multiset([9, 3, 7, 5]);
    SortedIsSortInts([3, 5, 7, 9], [9, 3, 7, 5]);
  }

  /**
    The stream tests on unsorted input (`[4, 3, 3, 3]`): the samples are sorted
    before the helpers run. The median of `[9, 3, 7, 5]`, a reordering of the
    tested `[3, 5, 7, 9]`, is an added example of the same kind.
  */
  lemma StreamExamples()
    ensures ModeTrack(SortInts([4, 3, 3, 3])).mode == Some(3)
    ensures ModesOf(SortInts([4, 3, 3, 3])) == [3]
    ensures MedianOnSorted(SortInts([9, 3, 7, 5])) == Some(6.0)
  {
    SortExampleMode();
    SortExampleMedian();
    ModeOfThreeThenOne(3, 4);
    ModesOfThreeThenOne(3, 4);
    MedianExamples();
  }
}
