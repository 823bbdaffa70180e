/** Following a pointer through a finite list: each stop decides the next one, and whether there is one. */
module Courses {
  /** After `n` steps: whether there is more to come, and the stop; `next` gives the stop after a stop. */
  datatype Course = Course(more: nat -> bool, at: nat -> nat, next: nat -> nat, size: nat, limit: nat)

  predicate Goes(c: Course, x: nat) {
    x + c.limit < c.size
  }

  predicate Steps(c: Course, n: nat) {
    if !c.more(n) then !c.more(n + 1)
    else
      && c.at(n) <= c.size && (c.more(n + 1) <==> Goes(c, c.at(n)))
      && c.at(n + 1) == if Goes(c, c.at(n)) then c.next(c.at(n)) else 0
  }

  ghost predicate IsCourse(c: Course) {
    c.more(0) && c.at(0) == 0 && forall n: nat :: Steps(c, n)
  }

  lemma {:induction false} MoreBefore(c: Course, a: nat, b: nat)
    requires IsCourse(c) && a <= b && c.more(b)
    ensures c.more(a)
  {
    if a == b {
    } else {
      assert Steps(c, b - 1);
      MoreBefore(c, a, b - 1);
    }
  }

  /** While there is more to come after it, a stop is one of the list's. */
  lemma StopInside(c: Course, n: nat)
    requires IsCourse(c) && c.more(n + 1)
    ensures c.at(n) < c.size
  {
    MoreBefore(c, n, n + 1);
    assert Steps(c, n);
  }

  // ---- Coming back ---------------------------------------------------------------------------------------

  /** A course that comes back to a stop goes on for ever. */
  lemma {:induction false} ComingBack(c: Course, i: nat, j: nat, m: nat)
    requires IsCourse(c) && i < j && c.more(j) && c.at(i) == c.at(j)
    ensures c.more(i + m) && c.more(j + m) && c.at(i + m) == c.at(j + m)
    decreases m
  {
    if m == 0 {
      MoreBefore(c, i, j);
    } else {
      ComingBack(c, i, j, m - 1);
      assert Steps(c, i + (m - 1)) && Steps(c, j + (m - 1));
      if i + m <= j {
        MoreBefore(c, i + m, j);
      } else {
        ComingBack(c, i, j, m - (j - i));
        assert j + (m - (j - i)) == i + m;
      }
    }
  }

  /** Among more than `n` numbers below `n` two are equal. */
  lemma {:induction false} Pigeonhole(xs: seq<nat>, n: nat) returns (i: nat, j: nat)
    requires |xs| > n && forall x :: x in xs ==> x < n
    ensures i < j < |xs| && xs[i] == xs[j]
    decreases n
  {
    assert xs[0] in xs;
    if k :| 0 < k < |xs| && xs[k] == xs[0] {
      i, j := 0, k;
    } else {
      var top := xs[0];
      var rest := seq(|xs| - 1, k requires 0 <= k < |xs| - 1 => if xs[k + 1] == n - 1 then top else xs[k + 1]);
      forall x | x in rest
        ensures x < n - 1
      {
        var k :| 0 <= k < |rest| && rest[k] == x;
        assert xs[k + 1] in xs;
      }
      i, j := Pigeonhole(rest, n - 1);
      i, j := i + 1, j + 1;
    }
  }

  lemma StopsRepeat(c: Course) returns (i: nat, j: nat)
    requires IsCourse(c) && c.more(c.size + 1)
    ensures i < j && c.more(j) && c.at(i) == c.at(j)
  {
    var stops := seq(c.size + 1, k requires 0 <= k < c.size + 1 => c.at(k));
    forall x | x in stops
      ensures x < c.size
    {
      var k: nat :| k < c.size + 1 && stops[k] == x;
      MoreBefore(c, k + 1, c.size + 1);
      StopInside(c, k);
    }
    i, j := Pigeonhole(stops, c.size);
    MoreBefore(c, j, c.size + 1);
  }

  /** A course ends if and only if it has ended after one step more than there are stops. */
  lemma EndsSoonOrNever(c: Course)
    requires IsCourse(c)
    ensures (exists n :: !c.more(n)) <==> !c.more(c.size + 1)
  {
    if c.more(c.size + 1) {
      var i, j := StopsRepeat(c);
      forall n
        ensures c.more(n)
      {
        ComingBack(c, i, j, n);
        MoreBefore(c, n, j + n);
      }
    }
  }

  // ---- Going forward, and being held ---------------------------------------------------------------------

  predicate Advances(c: Course, x: nat) {
    Goes(c, x) ==> c.next(x) > x
  }

  lemma {:induction false} Climbs(c: Course, n: nat)
    requires IsCourse(c) && c.more(n) && forall x: nat :: Advances(c, x)
    ensures c.at(n) >= n
  {
    if n == 0 {
    } else {
      MoreBefore(c, n - 1, n);
      Climbs(c, n - 1);
      assert Steps(c, n - 1) && Advances(c, c.at(n - 1));
    }
  }

  /** A course whose every step leads forward ends. */
  lemma ForwardEnds(c: Course)
    requires IsCourse(c) && forall x: nat :: Advances(c, x)
    ensures !c.more(c.size + 1)
  {
    if c.more(c.size + 1) {
      MoreBefore(c, c.size, c.size + 1);
      Climbs(c, c.size);
      StopInside(c, c.size);
    }
  }

  predicate StaysBefore(c: Course, i: nat, x: nat) {
    x <= i ==> c.next(x) <= i
  }

  /** A course with a stop that none before it passes never ends. */
  lemma {:induction false} HeldNeverEnds(c: Course, i: nat, n: nat)
    requires IsCourse(c) && Goes(c, i) && forall x: nat :: StaysBefore(c, i, x)
    ensures c.more(n) && c.at(n) <= i
  {
    if n == 0 {
    } else {
      HeldNeverEnds(c, i, n - 1);
      assert Steps(c, n - 1) && StaysBefore(c, i, c.at(n - 1));
    }
  }
}
