/** `ORDER BY`: insertion sort by any comparison, and what filtering has to do with it. */
module Sorting {
  import opened Counting

  function Insert<T>(x: T, xs: seq<T>, before: (T, T) -> bool): seq<T> {
    if xs == [] || before(x, xs[0]) then [x] + xs else [xs[0]] + Insert(x, xs[1..], before)
  }

  function SortBy<T>(xs: seq<T>, before: (T, T) -> bool): seq<T> {
    if xs == [] then [] else Insert(xs[0], SortBy(xs[1..], before), before)
  }

  predicate SortedBy<T>(xs: seq<T>, before: (T, T) -> bool) {
    forall i, j :: 0 <= i < j < |xs| ==> before(xs[i], xs[j])
  }

  /** Any two members are ordered one way or the other. */
  predicate Comparable<T>(xs: seq<T>, before: (T, T) -> bool) {
    forall i, j :: 0 <= i < j < |xs| ==> before(xs[i], xs[j]) || before(xs[j], xs[i])
  }

  ghost predicate Transitive<T(!new)>(before: (T, T) -> bool) {
    forall x, y, z :: before(x, y) && before(y, z) ==> before(x, z)
  }

  lemma {:induction false} InsertAdds<T>(x: T, xs: seq<T>, before: (T, T) -> bool)
    ensures multiset(Insert(x, xs, before)) == multiset([x] + xs)
  {
    if xs == [] || before(x, xs[0]) {
    } else {
      InsertAdds(x, xs[1..], before);
      assert xs == [xs[0]] + xs[1..];
    }
  }

  lemma {:induction false} SortKeeps<T>(xs: seq<T>, before: (T, T) -> bool)
    ensures multiset(SortBy(xs, before)) == multiset(xs)
  {
    if xs == [] {
    } else {
      SortKeeps(xs[1..], before);
      InsertAdds(xs[0], SortBy(xs[1..], before), before);
      assert xs == [xs[0]] + xs[1..];
    }
  }

  lemma {:induction false} InsertSorts<T(!new)>(x: T, xs: seq<T>, before: (T, T) -> bool)
    requires Transitive(before) && SortedBy(xs, before) && forall y :: y in xs ==> before(x, y) || before(y, x)
    ensures SortedBy(Insert(x, xs, before), before)
  {
    if xs == [] {
    } else if before(x, xs[0]) {
      assert forall i :: 0 < i < |xs| ==> before(xs[0], xs[i]);
    } else {
      var rest := Insert(x, xs[1..], before);
      InsertSorts(x, xs[1..], before);
      InsertAdds(x, xs[1..], before);
      forall j | 0 <= j < |rest|
        ensures before(xs[0], rest[j])
      {
        assert rest[j] in multiset(rest);
      }
    }
  }

  lemma {:induction false} SortBySorts<T(!new)>(xs: seq<T>, before: (T, T) -> bool)
    requires Transitive(before) && Comparable(xs, before)
    ensures SortedBy(SortBy(xs, before), before) && multiset(SortBy(xs, before)) == multiset(xs)
  {
    SortKeeps(xs, before);
    if xs == [] {
    } else {
      var rest := SortBy(xs[1..], before);
      SortBySorts(xs[1..], before);
      assert xs == [xs[0]] + xs[1..];
      forall y | y in rest
        ensures before(xs[0], y) || before(y, xs[0])
      {
        assert y in multiset(xs[1..]);
      }
      InsertSorts(xs[0], rest, before);
    }
  }

  lemma {:induction false} FilterInsert<T(!new)>(x: T, xs: seq<T>, before: (T, T) -> bool, keep: T -> bool)
    requires Transitive(before) && SortedBy(xs, before)
    ensures Filter(Insert(x, xs, before), keep)
         == if keep(x) then Insert(x, Filter(xs, keep), before) else Filter(xs, keep)
  {
    if xs == [] || before(x, xs[0]) {
      assert ([x] + xs)[1..] == xs;
      FilterKeeps(xs, keep);
      if Filter(xs, keep) != [] {
        assert Filter(xs, keep)[0] in xs;
      }
    } else {
      var rest := Insert(x, xs[1..], before);
      assert ([xs[0]] + rest)[1..] == rest;
      FilterInsert(x, xs[1..], before, keep);
      if keep(xs[0]) {
        assert ([xs[0]] + Filter(xs[1..], keep))[1..] == Filter(xs[1..], keep);
      }
    }
  }

  /** Filtering before sorting is filtering after. */
  lemma {:induction false} FilterSort<T(!new)>(xs: seq<T>, before: (T, T) -> bool, keep: T -> bool)
    requires Transitive(before) && Comparable(xs, before)
    ensures SortBy(Filter(xs, keep), before) == Filter(SortBy(xs, before), keep)
  {
    if xs == [] {
    } else {
      FilterSort(xs[1..], before, keep);
      SortBySorts(xs[1..], before);
      FilterInsert(xs[0], SortBy(xs[1..], before), before, keep);
      if keep(xs[0]) {
        assert ([xs[0]] + Filter(xs[1..], keep))[1..] == Filter(xs[1..], keep);
      }
    }
  }
}
