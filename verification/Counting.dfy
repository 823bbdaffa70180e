/** Weighted counts over a sequence: the counting invariants of the protocols are sums of these. */
module Counting {

  function Held(b: bool): nat {
    if b then 1 else 0
  }

  function Count<T>(xs: seq<T>, weight: T -> nat): nat {
    if xs == [] then 0 else weight(xs[0]) + Count(xs[1..], weight)
  }

  lemma {:induction false} CountAppend<T>(xs: seq<T>, x: T, weight: T -> nat)
    ensures Count(xs + [x], weight) == Count(xs, weight) + weight(x)
  {
    if xs == [] {
    } else {
      assert (xs + [x])[1..] == xs[1..] + [x];
      CountAppend(xs[1..], x, weight);
    }
  }

  lemma {:induction false} CountUpdate<T>(xs: seq<T>, i: nat, x: T, weight: T -> nat)
    requires i < |xs|
    ensures Count(xs[i := x], weight) + weight(xs[i]) == Count(xs, weight) + weight(x)
    ensures weight(xs[i]) <= Count(xs, weight)
  {
    if i == 0 {
      assert xs[0 := x][1..] == xs[1..];
    } else {
      assert xs[i := x][1..] == xs[1..][i - 1 := x];
      CountUpdate(xs[1..], i - 1, x, weight);
    }
  }

  /** What is counted is somewhere in the sequence. */
  lemma {:induction false} CountWitness<T>(xs: seq<T>, weight: T -> nat) returns (i: nat)
    requires Count(xs, weight) > 0
    ensures i < |xs| && weight(xs[i]) > 0
  {
    if weight(xs[0]) > 0 {
      i := 0;
    } else {
      i := CountWitness(xs[1..], weight);
      i := i + 1;
    }
  }

  lemma {:induction false} CountConcat<T>(xs: seq<T>, ys: seq<T>, weight: T -> nat)
    ensures Count(xs + ys, weight) == Count(xs, weight) + Count(ys, weight)
  {
    if xs == [] {
      assert xs + ys == ys;
    } else {
      assert (xs + ys)[1..] == xs[1..] + ys;
      CountConcat(xs[1..], ys, weight);
    }
  }

  lemma CountWithout<T>(xs: seq<T>, i: nat, weight: T -> nat)
    requires i < |xs|
    ensures Count(xs, weight) == weight(xs[i]) + Count(xs[..i] + xs[i + 1..], weight)
    ensures multiset(xs) == multiset{xs[i]} + multiset(xs[..i] + xs[i + 1..])
  {
    var tail := xs[i..];
    assert xs == xs[..i] + tail && tail == [xs[i]] + xs[i + 1..];
    CountConcat(xs[..i], tail, weight);
    CountConcat(xs[..i], xs[i + 1..], weight);
  }

  lemma {:induction false} CountPermuted<T>(xs: seq<T>, ys: seq<T>, weight: T -> nat)
    requires multiset(xs) == multiset(ys)
    ensures Count(xs, weight) == Count(ys, weight)
    decreases |xs|
  {
    if xs == [] {
      assert |multiset(ys)| == 0;
    } else {
      assert xs[0] in multiset(ys);
      var i :| 0 <= i < |ys| && ys[i] == xs[0];
      var xs', ys' := xs[..0] + xs[0 + 1..], ys[..i] + ys[i + 1..];
      CountWithout(xs, 0, weight);
      CountWithout(ys, i, weight);
      assert multiset(xs') == multiset(xs) - multiset{xs[0]} == multiset(ys');
      CountPermuted(xs', ys', weight);
    }
  }

  lemma {:induction false} CountSame<T>(xs: seq<T>, f: T -> nat, g: T -> nat)
    requires forall x :: x in xs ==> f(x) == g(x)
    ensures Count(xs, f) == Count(xs, g)
  {
    if xs == [] {
    } else {
      CountSame(xs[1..], f, g);
    }
  }

  lemma {:induction false} CountSum<T>(xs: seq<T>, f: T -> nat, g: T -> nat, h: T -> nat)
    requires forall x :: x in xs ==> h(x) == f(x) + g(x)
    ensures Count(xs, h) == Count(xs, f) + Count(xs, g)
  {
    if xs == [] {
    } else {
      CountSum(xs[1..], f, g, h);
    }
  }

  function Filter<T>(xs: seq<T>, p: T -> bool): seq<T> {
    if xs == [] then []
    else if p(xs[0]) then [xs[0]] + Filter(xs[1..], p) else Filter(xs[1..], p)
  }

  lemma {:induction false} FilterKeeps<T>(xs: seq<T>, p: T -> bool)
    ensures forall x :: x in Filter(xs, p) <==> x in xs && p(x)
  {
    if xs == [] {
    } else {
      FilterKeeps(xs[1..], p);
    }
  }

  /** The weight of what meets a condition; all else weighs nothing. */
  function Where<T>(p: T -> bool, weight: T -> nat): T -> nat {
    x => if p(x) then weight(x) else 0
  }

  lemma {:induction false} CountFilter<T>(xs: seq<T>, p: T -> bool, weight: T -> nat)
    ensures Count(Filter(xs, p), weight) == Count(xs, Where(p, weight))
  {
    if xs == [] {
    } else {
      CountFilter(xs[1..], p, weight);
      assert p(xs[0]) ==> Filter(xs, p)[1..] == Filter(xs[1..], p);
    }
  }

  lemma {:induction false} CountLength<T>(xs: seq<T>)
    ensures Count(xs, x => 1) == |xs|
  {
    if xs == [] {
    } else {
      CountLength(xs[1..]);
    }
  }

  lemma CountTwo<T>(xs: seq<T>, i: nat, j: nat, weight: T -> nat)
    requires i < j < |xs|
    ensures Count(xs, weight) >= weight(xs[i]) + weight(xs[j])
  {
    var rest := xs[..j] + xs[j + 1..];
    CountWithout(xs, j, weight);
    CountWithout(rest, i, weight);
  }

  lemma CountOnly<T>(xs: seq<T>, i: nat, weight: T -> nat)
    requires i < |xs| && forall j :: 0 <= j < |xs| && j != i ==> weight(xs[j]) == 0
    ensures Count(xs, weight) == weight(xs[i])
  {
    CountWithout(xs, i, weight);
    CountNothing(xs[..i] + xs[i + 1..], weight);
  }

  lemma {:induction false} CountNothing<T>(xs: seq<T>, weight: T -> nat)
    requires forall x :: x in xs ==> weight(x) == 0
    ensures Count(xs, weight) == 0
  {
    if xs == [] {
    } else {
      CountNothing(xs[1..], weight);
    }
  }
}
