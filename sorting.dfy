/**
  The sort primitive the aggregators call (`sort_unstable`, `sort_unstable_by`,
  `par_sort_unstable_by` in the library). The library's algorithm is not part of
  the model: one insertion sort over an order `le` stands for all of them, and the
  lemmas below state what the aggregators rely on: the result is ordered by `le`,
  it is a permutation of the input, and for an antisymmetric order it is the only
  such sequence.
*/
module Sorting {

  /** `le(a, b)` says that `a` may come before `b`: every two elements compare and the comparison chains. */
  ghost predicate TotalPreorder<T(!new)>(le: (T, T) -> bool) {
    && (forall a, b :: le(a, b) || le(b, a))
    && (forall a, b, c :: le(a, b) && le(b, c) ==> le(a, c))
  }

  /** Only equal elements compare both ways. */
  ghost predicate Antisymmetric<T(!new)>(le: (T, T) -> bool) {
    forall a, b :: le(a, b) && le(b, a) ==> a == b
  }

  predicate SortedBy<T>(s: seq<T>, le: (T, T) -> bool) {
    forall i, j :: 0 <= i < j < |s| ==> le(s[i], s[j])
  }

  /** Places `x` before the first element it may precede. */
  function InsertBy<T>(x: T, s: seq<T>, le: (T, T) -> bool): (r: seq<T>)
    ensures multiset(r) == multiset(s) + multiset{x}
    ensures |r| == |s| + 1
  {
    if s == [] || le(x, s[0]) then [x] + s
    else
      assert s == [s[0]] + s[1..];
      [s[0]] + InsertBy(x, s[1..], le)
  }

  function SortBy<T>(s: seq<T>, le: (T, T) -> bool): (r: seq<T>)
    ensures multiset(r) == multiset(s)
    ensures |r| == |s|
  {
    if s == [] then []
    else
      assert s == [s[0]] + s[1..];
      InsertBy(s[0], SortBy(s[1..], le), le)
  }

  lemma {:induction false} InsertBySorted<T(!new)>(x: T, s: seq<T>, le: (T, T) -> bool)
    requires TotalPreorder(le) && SortedBy(s, le)
    ensures SortedBy(InsertBy(x, s, le), le)
  {
    if s != [] && !le(x, s[0]) {
      InsertBySorted(x, s[1..], le);
      var rest := InsertBy(x, s[1..], le);
      // every element of `rest` is x or an element of s[1..], and s[0] may precede each
      forall j | 0 <= j < |rest| ensures le(s[0], rest[j]) {
        assert rest[j] in multiset(rest);
        assert rest[j] == x || rest[j] in multiset(s[1..]);
        if rest[j] != x {
          var k :| 1 <= k < |s| && s[k] == rest[j];
        }
      }
    }
  }

  lemma {:induction false} SortBySorted<T(!new)>(s: seq<T>, le: (T, T) -> bool)
    requires TotalPreorder(le)
    ensures SortedBy(SortBy(s, le), le)
  {
    if s != [] {
      SortBySorted(s[1..], le);
      InsertBySorted(s[0], SortBy(s[1..], le), le);
    }
  }

  /** Under an antisymmetric total order, a sorted permutation is unique. */
  lemma {:induction false} SortedUnique<T(!new)>(s: seq<T>, t: seq<T>, le: (T, T) -> bool)
    requires TotalPreorder(le) && Antisymmetric(le)
    requires SortedBy(s, le) && SortedBy(t, le)
    requires multiset(s) == multiset(t)
    ensures s == t
    decreases |s|
  {
    if s != [] {
      assert |t| == |s| by { assert |multiset(t)| == |multiset(s)|; }
      SameFirst(s, t, le);
      SameRest(s, t);
      SortedUnique(s[1..], t[1..], le);
      assert s == [s[0]] + s[1..] && t == [t[0]] + t[1..];
    }
  }

  /** The first elements agree: each may precede the other. */
  lemma SameFirst<T(!new)>(s: seq<T>, t: seq<T>, le: (T, T) -> bool)
    requires Antisymmetric(le)
    requires SortedBy(s, le) && SortedBy(t, le)
    requires multiset(s) == multiset(t) && s != [] && t != []
    ensures s[0] == t[0]
  {
    assert s[0] in multiset(t);
    var j :| 0 <= j < |t| && t[j] == s[0];
    assert t[0] in multiset(s);
    var i :| 0 <= i < |s| && s[i] == t[0];
    assert le(s[0], s[i]) || i == 0;
    assert le(t[0], t[j]) || j == 0;
  }

  /** Dropping the same first element leaves the same elements. */
  lemma SameRest<T>(s: seq<T>, t: seq<T>)
    requires multiset(s) == multiset(t) && s != [] && t != [] && s[0] == t[0]
    ensures multiset(s[1..]) == multiset(t[1..])
  {
    assert s == [s[0]] + s[1..];
    assert t == [t[0]] + t[1..];
    assert multiset(s[1..]) == multiset(s) - multiset{s[0]};
    assert multiset(t[1..]) == multiset(t) - multiset{t[0]};
  }
}
