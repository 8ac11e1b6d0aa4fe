/**
  `Frequencies`, the exact frequency table (src/frequency.rs): a hash map from
  sample to the number of times it was added. The hash map is a `map<int, nat>`;
  the order in which the source iterates it is unspecified, and the model walks
  it by picking any remaining key. A ghost multiset records every sample added,
  so that counts, totals and the number of distinct keys can be stated against
  what was put in.
*/
module FrequencyTable {
  import opened Optional
  import Sorting

  /** A `(value, count)` pair as `most_frequent` and friends return it. */
  type Entry = (int, nat)

  /** `data.get(v).copied().unwrap_or(0)` */
  function Lookup(m: map<int, nat>, k: int): nat {
    if k in m then m[k] else 0
  }

  /** `m` is the frequency table of the samples `s`: exactly the values that occur, each with its number of occurrences. */
  ghost predicate TableOf(m: map<int, nat>, s: multiset<int>) {
    && (forall k :: k in m ==> m[k] > 0)
    && (forall k :: s[k] == Lookup(m, k))
  }

  /** The distinct values among the samples. */
  ghost function Distinct(s: multiset<int>): set<int> {
    set k | k in s
  }

  /** The comparators handed to the sorts. */
  function ByCountDesc(a: Entry, b: Entry): bool { a.1 >= b.1 }
  function ByCountAsc(a: Entry, b: Entry): bool { a.1 <= b.1 }
  /** `par_frequent(true)`: count ascending, then value ascending. */
  function ByCountAscThenValue(a: Entry, b: Entry): bool { a.1 < b.1 || (a.1 == b.1 && a.0 <= b.0) }
  /** `par_frequent(false)`: count descending, then value ascending. */
  function ByCountDescThenValue(a: Entry, b: Entry): bool { a.1 > b.1 || (a.1 == b.1 && a.0 <= b.0) }

  function ParOrder(least: bool): (Entry, Entry) -> bool {
    if least then ByCountAscThenValue else ByCountDescThenValue
  }

  lemma CountOrdersAreTotal()
    ensures Sorting.TotalPreorder(ByCountDesc) && Sorting.TotalPreorder(ByCountAsc)
  {
  }

  /** The tie-broken orders are total and antisymmetric, so they fix the result completely. */
  lemma ParOrdersAreTotal(least: bool)
    ensures Sorting.TotalPreorder(ParOrder(least)) && Sorting.Antisymmetric(ParOrder(least))
  {
  }

  /** A listing of the table's entries, as `iter().map(..).collect()` produces it: each pair once. */
  ghost predicate ListsTable(e: seq<Entry>, m: map<int, nat>) {
    multiset(e) == multiset(m.Items)
  }

  /** What a listing of the entries says about positions: one per key, with that key's count, and no key twice. */
  lemma ListingFacts(e: seq<Entry>, m: map<int, nat>)
    requires ListsTable(e, m)
    ensures |e| == |m|
    ensures forall i :: 0 <= i < |e| ==> e[i].0 in m && m[e[i].0] == e[i].1
    ensures forall k :: k in m ==> exists i :: 0 <= i < |e| && e[i] == (k, m[k])
    ensures forall i, j :: 0 <= i < j < |e| ==> e[i].0 != e[j].0
  {
    assert |e| == |multiset(e)| == |multiset(m.Items)| == |m.Items|;
    forall i | 0 <= i < |e| ensures e[i].0 in m && m[e[i].0] == e[i].1 {
      assert e[i] in multiset(e);
    }
    forall k | k in m ensures exists i :: 0 <= i < |e| && e[i] == (k, m[k]) {
      assert (k, m[k]) in m.Items;
      assert (k, m[k]) in multiset(e);
    }
    forall i, j | 0 <= i < j < |e| ensures e[i].0 != e[j].0 {
      if e[i].0 == e[j].0 {
        TwiceListed(e, i, j);
        assert false;
      }
    }
  }

  /** An element at two positions occurs at least twice. */
  lemma TwiceListed(e: seq<Entry>, i: nat, j: nat)
    requires i < j < |e| && e[i] == e[j]
    ensures multiset(e)[e[i]] >= 2
  {
    assert e == e[..i] + [e[i]] + e[i + 1..j] + [e[j]] + e[j + 1..];
  }

  /** `v` occurs strictly more often than every other value. */
  ghost predicate IsStrictMax(m: map<int, nat>, v: int) {
    v in m && forall w :: w in m && w != v ==> m[w] < m[v]
  }

  class Frequencies {
    var data: map<int, nat>
    ghost var Samples: multiset<int>

    ghost predicate Valid()
      reads this
    {
      TableOf(data, Samples)
    }

    /** `new` / `default`: an empty table. */
    constructor ()
      ensures data == map[] && Samples == multiset{}
      ensures Valid()
    {
      data := map[];
      Samples := multiset{};
    }

    /** Inserts a new key with count 1, or increments an existing count. */
    method Add(v: int)
      requires Valid()
      modifies this
      ensures data == old(data)[v := Lookup(old(data), v) + 1]
      ensures Samples == old(Samples) + multiset{v} && Valid()
      ensures Count(v) == old(Count(v)) + 1
      ensures forall w :: w != v ==> Count(w) == old(Count(w))
    {
      if v in data {
        data := data[v := data[v] + 1];
      } else {
        data := data[v := 1];
      }
      Samples := Samples + multiset{v};
    }

    /** How many times `v` was added; 0 for a value never added. */
    function Count(v: int): (c: nat)
      reads this
      ensures Valid() ==> c == Samples[v]
    {
      if v in data then data[v] else 0
    }

    /** The number of distinct values added. */
    function Len(): (n: nat)
      reads this
      ensures Valid() ==> n == |Distinct(Samples)|
    {
      assert Valid() ==> data.Keys == Distinct(Samples) by {
        if Valid() {
          forall k ensures k in data <==> k in Samples {
            assert Samples[k] == Lookup(data, k);
          }
        }
      }
      |data|
    }

    function Cardinality(): (c: nat)
      reads this
      ensures c == Len()
      ensures Valid() ==> c == |Distinct(Samples)|
    {
      Len()
    }

    function IsEmpty(): (b: bool)
      reads this
      ensures Valid() ==> (b <==> Samples == multiset{})
    {
      assert Valid() ==> (data == map[] <==> Samples == multiset{}) by {
        if Valid() {
          if forall k :: k !in data {
            assert data == map[];
            assert forall k :: Samples[k] == 0;
          } else {
            var k :| k in data;
            assert Samples[k] == Lookup(data, k) > 0;
          }
        }
      }
      data == map[]
    }

    /** Walks the table, listing each entry and adding up the counts. */
    method CountsWithTotal() returns (counts: seq<Entry>, total: nat)
      requires Valid()
      ensures ListsTable(counts, data)
      ensures total == |Samples|
    {
      counts := [];
      total := 0;
      var rest := data;
      ghost var seen: multiset<int> := multiset{};
      while rest != map[]
        invariant forall k :: k in rest ==> k in data && rest[k] == data[k]
        invariant multiset(counts) + multiset(rest.Items) == multiset(data.Items)
        invariant forall x :: seen[x] == if x in data && x !in rest then data[x] else 0
        invariant total == |seen|
        decreases rest.Keys
      {
        NonEmptyHasKey(rest);
        var k :| k in rest;
        var c := rest[k];
        RemoveEntry(rest, k);
        counts := counts + [(k, c)];
        total := total + c;
        seen := seen[k := c];
        rest := rest - {k};
      }
      assert seen == Samples by {
        forall x ensures seen[x] == Samples[x] {
          assert x !in rest;
        }
      }
    }

    /** The entries, by non-increasing count, and the total number of samples. */
    method MostFrequent() returns (counts: seq<Entry>, total: nat)
      requires Valid()
      ensures ListsTable(counts, data)
      ensures forall i, j :: 0 <= i < j < |counts| ==> counts[i].1 >= counts[j].1
      ensures total == |Samples|
    {
      counts, total := CountsWithTotal();
      CountOrdersAreTotal();
      Sorting.SortBySorted(counts, ByCountDesc);
      counts := Sorting.SortBy(counts, ByCountDesc);
    }

    /** The entries, by non-decreasing count, and the total number of samples. */
    method LeastFrequent() returns (counts: seq<Entry>, total: nat)
      requires Valid()
      ensures ListsTable(counts, data)
      ensures forall i, j :: 0 <= i < j < |counts| ==> counts[i].1 <= counts[j].1
      ensures total == |Samples|
    {
      counts, total := CountsWithTotal();
      CountOrdersAreTotal();
      Sorting.SortBySorted(counts, ByCountAsc);
      counts := Sorting.SortBy(counts, ByCountAsc);
    }

    /**
      The entries by count (ascending when `least`, descending otherwise), ties
      broken by ascending value. The order is fully determined: any listing of
      the entries in this order is this one.
    */
    method ParFrequent(least: bool) returns (counts: seq<Entry>, total: nat)
      requires Valid()
      ensures ListsTable(counts, data)
      ensures Sorting.SortedBy(counts, ParOrder(least))
      ensures forall e :: ListsTable(e, data) && Sorting.SortedBy(e, ParOrder(least)) ==> e == counts
      ensures total == |Samples|
    {
      counts, total := CountsWithTotal();
      ParOrdersAreTotal(least);
      Sorting.SortBySorted(counts, ParOrder(least));
      counts := Sorting.SortBy(counts, ParOrder(least));
      forall e | ListsTable(e, data) && Sorting.SortedBy(e, ParOrder(least)) ensures e == counts {
        Sorting.SortedUnique(e, counts, ParOrder(least));
      }
    }

    /** The value with strictly the highest count; none for an empty table or a tie at the top. */
    method Mode() returns (r: Option<int>)
      requires Valid()
      ensures r.Some? ==> IsStrictMax(data, r.value)
      ensures r.None? ==> forall v :: !IsStrictMax(data, v)
    {
      var counts, _ := MostFrequent();
      ListingFacts(counts, data);
      if |counts| == 0 {
        return None;
      }
      if |counts| >= 2 && counts[0].1 == counts[1].1 {
        r := None;
        forall v ensures !IsStrictMax(data, v) {
          if v == counts[0].0 {
            assert counts[1].0 in data && counts[1].0 != v;
          } else if v in data {
            var i :| 0 <= i < |counts| && counts[i] == (v, data[v]);
            assert i > 0 && counts[0].1 >= counts[i].1;
          }
        }
      } else {
        r := Some(counts[0].0);
        forall w | w in data && w != counts[0].0 ensures data[w] < data[counts[0].0] {
          var i :| 0 <= i < |counts| && counts[i] == (w, data[w]);
          assert i >= 1 && counts[1].1 >= counts[i].1;
        }
      }
    }

    /** `Commute::merge`: adds the other table's counts key by key. */
    method Merge(other: Frequencies)
      requires Valid() && other.Valid()
      modifies this
      ensures forall k :: Lookup(data, k) == Lookup(old(data), k) + Lookup(old(other.data), k)
      ensures data.Keys == old(data).Keys + old(other.data).Keys
      ensures Samples == old(Samples) + old(other.Samples) && Valid()
    {
      var rest := other.data;
      ghost var others := other.data;
      ghost var otherSamples := other.Samples;
      assert TableOf(others, otherSamples);
      while rest != map[]
        invariant forall k :: k in rest ==> k in others && rest[k] == others[k]
        invariant forall k :: Lookup(data, k) == Lookup(old(data), k) + if k in others && k !in rest then others[k] else 0
        invariant data.Keys == old(data).Keys + (others.Keys - rest.Keys)
        invariant forall k :: k in data ==> data[k] > 0
        invariant Samples == old(Samples)
        decreases rest.Keys
      {
        NonEmptyHasKey(rest);
        var k :| k in rest;
        var v2 := rest[k];
        if k in data {
          data := data[k := data[k] + v2];
        } else {
          data := data[k := v2];
        }
        rest := rest - {k};
      }
      Samples := Samples + otherSamples;
      forall k ensures Samples[k] == Lookup(data, k) {
        assert k !in rest;
      }
    }

    /** Adds every sample of the stream, in order. */
    method Extend(it: seq<int>)
      requires Valid()
      modifies this
      ensures Samples == old(Samples) + multiset(it) && Valid()
      ensures forall k :: Count(k) == old(Count(k)) + multiset(it)[k]
    {
      for i := 0 to |it|
        invariant Samples == old(Samples) + multiset(it[..i]) && Valid()
      {
        assert it[..i + 1] == it[..i] + [it[i]];
        Add(it[i]);
      }
      assert it[..|it|] == it;
    }

    /** The distinct values, each once, in the table's iteration order. */
    method UniqueValues() returns (r: seq<int>)
      requires Valid()
      ensures |r| == |data| == |Distinct(Samples)|
      ensures forall v :: v in r <==> v in Samples
      ensures forall i, j :: 0 <= i < j < |r| ==> r[i] != r[j]
    {
      r := [];
      var rest := data.Keys;
      while rest != {}
        invariant rest <= data.Keys
        invariant forall v :: v in r <==> v in data && v !in rest
        invariant forall i, j :: 0 <= i < j < |r| ==> r[i] != r[j]
        invariant |r| + |rest| == |data.Keys|
      {
        NonEmptyHasElement(rest);
        var k :| k in rest;
        assert k !in r;
        r := r + [k];
        rest := rest - {k};
      }
      assert forall v :: v in data <==> v in Samples by {
        assert forall v :: Samples[v] == Lookup(data, v);
      }
      assert |data| == |Distinct(Samples)| by {
        forall v ensures v in data.Keys <==> v in Distinct(Samples) {
          assert Samples[v] == Lookup(data, v);
        }
        assert data.Keys == Distinct(Samples);
      }
    }
  }

  /** Removing one key removes exactly its entry. */
  lemma RemoveEntry(m: map<int, nat>, k: int)
    requires k in m
    ensures multiset((m - {k}).Items) + multiset{(k, m[k])} == multiset(m.Items)
  {
    var m' := m - {k};
    forall p | p in m.Items ensures p in m'.Items + {(k, m[k])} {
      if p.0 != k {
        assert p.0 in m';
      }
    }
    assert m.Items == m'.Items + {(k, m[k])};
    assert (k, m[k]) !in m'.Items;
  }

  /** Solver helper: a non-empty map has a key to pick (the witness the `:|` loops need). */
  lemma NonEmptyHasKey(m: map<int, nat>)
    requires m != map[]
    ensures exists k :: k in m
  {
    if forall k :: k !in m {
      assert false;
    }
  }

  /** Solver helper: a non-empty set has an element to pick. */
  lemma NonEmptyHasElement(s: set<int>)
    requires s != {}
    ensures exists k :: k in s
  {
    if forall k :: k !in s {
      assert false;
    }
  }

  /** `from_iter`: a new table extended with the stream. */
  method FromIter(it: seq<int>) returns (f: Frequencies)
    ensures fresh(f) && f.Valid() && f.Samples == multiset(it)
  {
    f := new Frequencies();
    f.Extend(it);
  }

  // ---------------------------------------------------------------------------
  // The scenarios of the `ranked`, `ranked2` and `unique_values` tests

  /** The table built from the eleven samples of the ranking tests. */
  lemma RankedTable(m: map<int, nat>)
    requires TableOf(m, multiset([1, 1, 2, 2, 2, 2, 2, 3, 4, 4, 4]))
    ensures m == map[1 := 2, 2 := 5, 3 := 1, 4 := 3]
  {
    var s := multiset([1, 1, 2, 2, 2, 2, 2, 3, 4, 4, 4]);
    assert s == multiset{1, 1, 2, 2, 2, 2, 2, 3, 4, 4, 4};
    assert s[1] == 2 && s[2] == 5 && s[3] == 1 && s[4] == 3;
    forall k | k in m ensures k in {1, 2, 3, 4} {
      assert s[k] == m[k] > 0;
    }
    assert m.Keys == {1, 2, 3, 4};
  }

  /** Whatever order the hash map lists them in, the most frequent entry comes first after the sort. */
  lemma RankedMostFirst(e: seq<Entry>)
    requires ListsTable(e, map[1 := 2, 2 := 5, 3 := 1, 4 := 3])
    requires forall i, j :: 0 <= i < j < |e| ==> e[i].1 >= e[j].1
    ensures e[0] == (2, 5)
  {
    var m := map[1 := 2, 2 := 5, 3 := 1, 4 := 3];
    ListedFirstIsMax(e, m, 2);
  }

  /** A listing by non-increasing count starts with the key of strictly highest count. */
  lemma ListedFirstIsMax(e: seq<Entry>, m: map<int, nat>, k: int)
    requires ListsTable(e, m) && IsStrictMax(m, k)
    requires forall i, j :: 0 <= i < j < |e| ==> e[i].1 >= e[j].1
    ensures e != [] && e[0] == (k, m[k])
  {
    ListingFacts(e, m);
    var i :| 0 <= i < |e| && e[i] == (k, m[k]);
    assert e[0].1 >= m[k];
  }

  /** ... and the least frequent entry first for the ascending sort. */
  lemma RankedLeastFirst(e: seq<Entry>)
    requires ListsTable(e, map[1 := 2, 2 := 5, 3 := 1, 4 := 3])
    requires forall i, j :: 0 <= i < j < |e| ==> e[i].1 <= e[j].1
    ensures e[0] == (3, 1)
  {
    var m := map[1 := 2, 2 := 5, 3 := 1, 4 := 3];
    ListedFirstIsMin(e, m, 3);
  }

  /** A listing by non-decreasing count starts with the key of strictly lowest count. */
  lemma ListedFirstIsMin(e: seq<Entry>, m: map<int, nat>, k: int)
    requires ListsTable(e, m) && k in m && forall w :: w in m && w != k ==> m[k] < m[w]
    requires forall i, j :: 0 <= i < j < |e| ==> e[i].1 <= e[j].1
    ensures e != [] && e[0] == (k, m[k])
  {
    ListingFacts(e, m);
    var i :| 0 <= i < |e| && e[i] == (k, m[k]);
    assert e[0].1 <= m[k];
  }

  /** The tie-broken orders of `par_frequent` agree on the first entry. */
  lemma RankedParFirst(e: seq<Entry>, least: bool)
    requires ListsTable(e, map[1 := 2, 2 := 5, 3 := 1, 4 := 3])
    requires Sorting.SortedBy(e, ParOrder(least))
    ensures |e| == 4 && e[0] == if least then (3, 1) else (2, 5)
  {
    ListingFacts(e, map[1 := 2, 2 := 5, 3 := 1, 4 := 3]);
    if least {
      assert forall i, j :: 0 <= i < j < |e| ==> ByCountAscThenValue(e[i], e[j]);
      RankedLeastFirst(e);
    } else {
      assert forall i, j :: 0 <= i < j < |e| ==> ByCountDescThenValue(e[i], e[j]);
      RankedMostFirst(e);
    }
  }

  /** The `ranked` test: the first entries and the totals of `most_frequent` and `least_frequent`. */
  method Ranked() returns (mostFirst: Entry, mostTotal: nat, leastFirst: Entry, leastTotal: nat)
    ensures mostFirst == (2, 5) && mostTotal == 11
    ensures leastFirst == (3, 1) && leastTotal == 11
  {
    var counts := new Frequencies();
    counts.Extend([1, 1, 2, 2, 2, 2, 2, 3, 4, 4, 4]);
    RankedTable(counts.data);
    var most, least;
    most, mostTotal := counts.MostFrequent();
    ListingFacts(most, counts.data);
    RankedMostFirst(most);
    mostFirst := most[0];
    least, leastTotal := counts.LeastFrequent();
    ListingFacts(least, counts.data);
    RankedLeastFirst(least);
    leastFirst := least[0];
  }

  /** The `ranked2` test: the same through `par_frequent(false)` and `par_frequent(true)`. */
  method Ranked2() returns (mostFirst: Entry, mostTotal: nat, leastFirst: Entry, leastTotal: nat)
    ensures mostFirst == (2, 5) && mostTotal == 11
    ensures leastFirst == (3, 1) && leastTotal == 11
  {
    var counts := new Frequencies();
    counts.Extend([1, 1, 2, 2, 2, 2, 2, 3, 4, 4, 4]);
    RankedTable(counts.data);
    var most, least;
    most, mostTotal := counts.ParFrequent(false);
    RankedParFirst(most, false);
    mostFirst := most[0];
    least, leastTotal := counts.ParFrequent(true);
    RankedParFirst(least, true);
    leastFirst := least[0];
  }

  lemma UniqueValuesSet()
    ensures Distinct(multiset([8, 6, 5, 1, 1, 2, 2, 2, 3, 4, 7, 4, 4])) == {1, 2, 3, 4, 5, 6, 7, 8}
  {
    var s := multiset([8, 6, 5, 1, 1, 2, 2, 2, 3, 4, 7, 4, 4]);
    assert s == multiset{8, 6, 5, 1, 1, 2, 2, 2, 3, 4, 7, 4, 4};
    DistinctOfSamples(s);
  }

  lemma DistinctOfSamples(s: multiset<int>)
    requires s == multiset{8, 6, 5, 1, 1, 2, 2, 2, 3, 4, 7, 4, 4}
    ensures Distinct(s) == {1, 2, 3, 4, 5, 6, 7, 8}
  {
    forall k ensures k in s <==> k in {1, 2, 3, 4, 5, 6, 7, 8} {
      assert k in s <==> s[k] > 0;
    }
  }

  /** Thirteen samples with eight distinct values. */
  lemma UniqueValuesExample()
    ensures |Distinct(multiset([8, 6, 5, 1, 1, 2, 2, 2, 3, 4, 7, 4, 4]))| == 8
  {
    assert |{1, 2, 3, 4, 5, 6, 7, 8}| == 8;
    UniqueValuesSet();
  }
}
