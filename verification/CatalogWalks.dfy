/** Following `nextCursor` from page to page: where it ends, and when it shows what it should. */
module CatalogWalks {
  import opened Wrappers
  import opened Counting
  import opened CatalogPaging
  import opened Courses

  datatype Walk = Walk(all: seq<Row>, cursor: Option<Cursor>, more: bool)

  /** What a client has after `n` requests, if there was anything left to request. */
  function WalkAfter(table: seq<Row>, keep: Row -> bool, dir: Direction, limit: nat, n: nat): Walk
    requires limit > 0
  {
    if n == 0 then Walk([], None, true)
    else
      var w := WalkAfter(table, keep, dir, limit, n - 1);
      if !w.more then w
      else
        var page := PageOf(Matching(table, keep, dir, w.cursor), limit);
        Walk(w.all + page.data, page.nextCursor, page.hasMore)
  }

  /**
   A client that follows `nextCursor` for as long as there is one, giving up after so many requests: oldest first,
   a walk need not end.
   */
  method FollowCursor(table: seq<Row>, keep: Row -> bool, dir: Direction, requested: Option<nat>, requests: nat)
    returns (w: Walk)
    requires LimitOf(requested) >= 1
    ensures w == WalkAfter(table, keep, dir, LimitOf(requested), requests)
  {
    w := Walk([], None, true);
    var n := 0;
    while n < requests && w.more
      invariant n <= requests && w == WalkAfter(table, keep, dir, LimitOf(requested), n)
    {
      var page := List(table, keep, dir, requested, w.cursor);
      w := Walk(w.all + page.data, page.nextCursor, page.hasMore);
      n := n + 1;
    }
    WalksGrow(table, keep, dir, LimitOf(requested), n, requests);
  }

  lemma {:induction false} WalksGrow(table: seq<Row>, keep: Row -> bool, dir: Direction, limit: nat, n: nat, m: nat)
    requires limit > 0 && n <= m
    ensures var v, w := WalkAfter(table, keep, dir, limit, n), WalkAfter(table, keep, dir, limit, m);
            v.all <= w.all && (w.more ==> v.more) && (!v.more ==> w == v)
    decreases m - n
  {
    if n == m {
    } else {
      WalksGrow(table, keep, dir, limit, n, m - 1);
    }
  }

  /** The page after a cursor that stands before row `at`. */
  lemma PageAt(table: seq<Row>, keep: Row -> bool, dir: Direction, full: seq<Row>, limit: nat, cursor: Option<Cursor>,
               at: nat)
    requires Valid(table, keep, dir, full) && at <= |full| && limit > 0
    requires forall i :: 0 <= i < |full| ==> (After(dir, cursor, full[i]) <==> at <= i)
    ensures PageOf(Matching(table, keep, dir, cursor), limit)
         == if at + limit < |full| then Page(full[at..at + limit], Some(Cut(full[at + limit - 1])), true)
            else Page(full[at..], None, false)
  {
    MatchingIsSuffix(table, keep, dir, full, cursor, at);
    assert |full[at..]| == |full| - at;
    if at + limit < |full| {
      assert full[at..][..limit] == full[at..at + limit] && full[at..][limit - 1] == full[at + limit - 1];
    }
  }

  // ---- Newest first --------------------------------------------------------------------------------------

  ghost predicate AllBefore(dir: Direction, rows: seq<Row>, r: Row) {
    forall x :: x in rows ==> Before(dir, KeyOf(x), KeyOf(r))
  }

  ghost predicate Within(rows: seq<Row>, full: seq<Row>) {
    forall r :: r in rows ==> r in full
  }

  lemma PageGoesOn(dir: Direction, full: seq<Row>, all: seq<Row>, at: nat, next: nat)
    requires Sorted(dir, full) && Sorted(dir, all) && at <= next <= |full| && Within(all, full)
    requires at < |full| ==> AllBefore(dir, all, full[at])
    ensures Sorted(dir, all + full[at..next]) && Within(all + full[at..next], full)
    ensures forall i :: next <= i < |full| ==> AllBefore(dir, all + full[at..next], full[i])
  {
    var data := full[at..next];
    forall i | at <= i < |full|
      ensures AllBefore(dir, all, full[i])
    {
      assert i > at ==> Before(dir, KeyOf(full[at]), KeyOf(full[i]));
    }
    forall i, j | 0 <= i < j < |all + data|
      ensures Before(dir, KeyOf((all + data)[i]), KeyOf((all + data)[j]))
    {
      if i < |all| <= j {
        assert AllBefore(dir, all, full[at + j - |all|]) && all[i] in all;
      }
    }
  }

  /** After a page the walk goes on behind it: right behind it exactly if the cut is clean. */
  lemma CutGoesOn(dir: Direction, full: seq<Row>, k: nat)
    requires Sorted(dir, full) && 0 < k < |full| && (dir.DESC? || CleanCut(dir, full, k))
    ensures var p := Position(dir, full, Some(Cut(full[k - 1])));
      && k <= p <= |full|
      && (p == k <==> CleanCut(dir, full, k))
      && (forall i :: 0 <= i < |full| ==> (After(dir, Some(Cut(full[k - 1])), full[i]) <==> p <= i))
  {
    PositionSplits(dir, full, Some(Cut(full[k - 1])));
    assert !After(dir, Some(Cut(full[k - 1])), full[k - 1]);
  }

  /** The client has rows in order, all of them before row `at`, with which the next page begins. */
  ghost predicate Walked(w: Walk, dir: Direction, full: seq<Row>, at: nat) {
    && at <= |full| && Sorted(dir, w.all) && Within(w.all, full)
    && (forall i :: 0 <= i < |full| ==> (After(dir, w.cursor, full[i]) <==> at <= i))
    && (at < |full| ==> AllBefore(dir, w.all, full[at]))
  }

  lemma DescendingPage(full: seq<Row>, limit: nat, w: Walk, at: nat)
    requires limit > 0 && Sorted(DESC, full) && Walked(w, DESC, full, at) && at + limit < |full|
    ensures var cursor := Some(Cut(full[at + limit - 1]));
      && Position(DESC, full, cursor) > at
      && Walked(Walk(w.all + full[at..at + limit], cursor, true), DESC, full, Position(DESC, full, cursor))
  {
    PageGoesOn(DESC, full, w.all, at, at + limit);
    CutGoesOn(DESC, full, at + limit);
  }

  lemma LastPage(full: seq<Row>, w: Walk, at: nat)
    requires Sorted(DESC, full) && Walked(w, DESC, full, at)
    ensures Sorted(DESC, w.all + full[at..]) && Within(w.all + full[at..], full)
  {
    PageGoesOn(DESC, full, w.all, at, |full|);
    assert full[at..|full|] == full[at..];
  }

  lemma DescendingStep(table: seq<Row>, keep: Row -> bool, limit: nat, full: seq<Row>, at: nat, n: nat)
    returns (next: nat)
    requires limit > 0 && Valid(table, keep, DESC, full)
    requires WalkAfter(table, keep, DESC, limit, n).more
    requires Walked(WalkAfter(table, keep, DESC, limit, n), DESC, full, at)
    ensures var w := WalkAfter(table, keep, DESC, limit, n + 1);
            if w.more then next > at && Walked(w, DESC, full, next) else Sorted(DESC, w.all) && Within(w.all, full)
  {
    var w := WalkAfter(table, keep, DESC, limit, n);
    PageAt(table, keep, DESC, full, limit, w.cursor, at);
    if at + limit < |full| {
      DescendingPage(full, limit, w, at);
      next := Position(DESC, full, Some(Cut(full[at + limit - 1])));
    } else {
      LastPage(full, w, at);
      next := at;
    }
  }

  lemma {:induction false} DescendingWalk(table: seq<Row>, keep: Row -> bool, limit: nat, full: seq<Row>, n: nat)
    returns (at: nat)
    requires limit > 0 && Valid(table, keep, DESC, full)
    ensures var w := WalkAfter(table, keep, DESC, limit, n);
            if w.more then at >= n && Walked(w, DESC, full, at) else Sorted(DESC, w.all) && Within(w.all, full)
  {
    if n == 0 {
      at := 0;
    } else {
      at := DescendingWalk(table, keep, limit, full, n - 1);
      if WalkAfter(table, keep, DESC, limit, n - 1).more {
        at := DescendingStep(table, keep, limit, full, at, n - 1);
      }
    }
  }

  /** Newest first a walk always ends, and at every moment the client has rows of the table, in order and once each. */
  lemma DescendingEnds(table: seq<Row>, keep: Row -> bool, limit: nat, n: nat)
    requires DistinctIds(table) && limit > 0
    ensures Sorted(DESC, WalkAfter(table, keep, DESC, limit, n).all)
    ensures forall r :: r in WalkAfter(table, keep, DESC, limit, n).all ==> r in table && keep(r)
    ensures n > |table| ==> !WalkAfter(table, keep, DESC, limit, n).more
  {
    var full := Full(table, keep, DESC);
    FullIsValid(table, keep, DESC);
    FullIsShort(table, keep, DESC);
    var at := DescendingWalk(table, keep, limit, full, n);
  }

  lemma FullIsShort(table: seq<Row>, keep: Row -> bool, dir: Direction)
    requires DistinctIds(table)
    ensures |Full(table, keep, dir)| <= |table|
  {
    FilterDistinct(table, keep);
    OrderBySorts(dir, Filter(table, keep));
    assert |multiset(Full(table, keep, dir))| == |multiset(Filter(table, keep))|;
    FilterShortens(table, keep);
  }

  lemma {:induction false} FilterShortens(rows: seq<Row>, keep: Row -> bool)
    ensures |Filter(rows, keep)| <= |rows|
  {
    if rows == [] {
    } else {
      FilterShortens(rows[1..], keep);
    }
  }

  // ---- Exactly the rows ----------------------------------------------------------------------------------

  ghost predicate EndsWith(table: seq<Row>, keep: Row -> bool, dir: Direction, limit: nat, full: seq<Row>)
    requires limit > 0
  {
    exists n :: !WalkAfter(table, keep, dir, limit, n).more && WalkAfter(table, keep, dir, limit, n).all == full
  }

  /** The client has the first `at` rows, and the next page begins with row `at`. */
  ghost predicate OnTrack(w: Walk, dir: Direction, full: seq<Row>, at: nat) {
    && at <= |full| && w.all == full[..at] && w.more
    && forall i :: 0 <= i < |full| ==> (After(dir, w.cursor, full[i]) <==> at <= i)
  }

  lemma StepOn(table: seq<Row>, keep: Row -> bool, dir: Direction, limit: nat, full: seq<Row>, at: nat, n: nat)
    requires limit > 0 && Valid(table, keep, dir, full) && OnTrack(WalkAfter(table, keep, dir, limit, n), dir, full, at)
    ensures at + limit >= |full| ==> WalkAfter(table, keep, dir, limit, n + 1) == Walk(full, None, false)
    ensures at + limit < |full| ==>
              WalkAfter(table, keep, dir, limit, n + 1)
              == Walk(full[..at + limit], Some(Cut(full[at + limit - 1])), true)
  {
    PageAt(table, keep, dir, full, limit, WalkAfter(table, keep, dir, limit, n).cursor, at);
    assert at + limit < |full| ==> full[..at] + full[at..at + limit] == full[..at + limit];
    assert full[..at] + full[at..] == full;
  }

  lemma CleanStep(table: seq<Row>, keep: Row -> bool, dir: Direction, limit: nat, full: seq<Row>, at: nat, n: nat)
    requires limit > 0 && Valid(table, keep, dir, full) && OnTrack(WalkAfter(table, keep, dir, limit, n), dir, full, at)
    requires at + limit < |full| && CleanCut(dir, full, at + limit)
    ensures OnTrack(WalkAfter(table, keep, dir, limit, n + 1), dir, full, at + limit)
  {
    StepOn(table, keep, dir, limit, full, at, n);
    CutGoesOn(dir, full, at + limit);
  }

  /** What the client has is no beginning of the full list any more, or has ended too early. */
  predicate OffTrack(w: Walk, full: seq<Row>, k: nat) {
    k < |full| && k <= |w.all| && if |w.all| > k then w.all[k] != full[k] else !w.more
  }

  lemma OtherRow(dir: Direction, full: seq<Row>, limit: nat, k: nat, p: nat)
    requires Sorted(dir, full) && k < |full| && p <= |full| && p != k && limit > 0
    ensures var page := if p + limit < |full| then Page(full[p..p + limit], Some(Cut(full[p + limit - 1])), true)
                        else Page(full[p..], None, false);
            OffTrack(Walk(full[..k] + page.data, page.nextCursor, page.hasMore), full, k)
  {
    if p < |full| {
      assert Before(dir, KeyOf(full[if p < k then p else k]), KeyOf(full[if p < k then k else p]));
    }
  }

  /** After a cut that is not clean the next page begins with another row than it should, or is empty. */
  lemma UncleanStep(
      table: seq<Row>, keep: Row -> bool, dir: Direction, limit: nat, full: seq<Row>, at: nat, n: nat)
    requires limit > 0 && Valid(table, keep, dir, full) && OnTrack(WalkAfter(table, keep, dir, limit, n), dir, full, at)
    requires at + limit < |full| && !CleanCut(dir, full, at + limit)
    ensures WalkAfter(table, keep, dir, limit, n + 1).more
    ensures OffTrack(WalkAfter(table, keep, dir, limit, n + 2), full, at + limit)
  {
    var k := at + limit;
    var cursor := Some(Cut(full[k - 1]));
    var p := Position(dir, full, cursor);
    StepOn(table, keep, dir, limit, full, at, n);
    PositionSplits(dir, full, cursor);
    PageAt(table, keep, dir, full, limit, cursor, p);
    OtherRow(dir, full, limit, k, p);
  }

  lemma OffTrackFails(
      table: seq<Row>, keep: Row -> bool, dir: Direction, limit: nat, full: seq<Row>, n: nat, k: nat, m: nat)
    requires limit > 0 && WalkAfter(table, keep, dir, limit, n).more
    requires OffTrack(WalkAfter(table, keep, dir, limit, n + 1), full, k)
    requires !WalkAfter(table, keep, dir, limit, m).more
    ensures WalkAfter(table, keep, dir, limit, m).all != full
  {
    if m <= n {
      WalksGrow(table, keep, dir, limit, m, n);
    } else {
      WalksGrow(table, keep, dir, limit, n + 1, m);
    }
  }

  lemma OffTrackForever(
      table: seq<Row>, keep: Row -> bool, dir: Direction, limit: nat, full: seq<Row>, n: nat, k: nat)
    requires limit > 0 && WalkAfter(table, keep, dir, limit, n).more
    requires OffTrack(WalkAfter(table, keep, dir, limit, n + 1), full, k)
    ensures !EndsWith(table, keep, dir, limit, full)
  {
    if EndsWith(table, keep, dir, limit, full) {
      var m :| !WalkAfter(table, keep, dir, limit, m).more && WalkAfter(table, keep, dir, limit, m).all == full;
      OffTrackFails(table, keep, dir, limit, full, n, k, m);
    }
  }

  /** What the pages after a client on track bring: the end, the next rows, or others. */
  ghost predicate Proceeds(walk: nat -> Walk, dir: Direction, full: seq<Row>, limit: nat, at: nat, n: nat)
    requires limit > 0
  {
    if at + limit >= |full| then walk(n + 1) == Walk(full, None, false)
    else if CleanCut(dir, full, at + limit) then OnTrack(walk(n + 1), dir, full, at + limit)
    else walk(n + 1).more && OffTrack(walk(n + 2), full, at + limit)
  }

  ghost predicate AlwaysProceeds(walk: nat -> Walk, dir: Direction, full: seq<Row>, limit: nat)
    requires limit > 0
  {
    forall n: nat, at: nat :: OnTrack(walk(n), dir, full, at) ==> Proceeds(walk, dir, full, limit, at, n)
  }

  lemma {:induction false} KeepsTrack(walk: nat -> Walk, dir: Direction, full: seq<Row>, limit: nat, at: nat, n: nat)
    returns (m: nat)
    requires limit > 0 && OnTrack(walk(n), dir, full, at) && CleanFrom(dir, full, limit, at)
    requires AlwaysProceeds(walk, dir, full, limit)
    ensures walk(m) == Walk(full, None, false)
    decreases |full| - at
  {
    assert Proceeds(walk, dir, full, limit, at, n);
    if at + limit >= |full| {
      m := n + 1;
    } else {
      m := KeepsTrack(walk, dir, full, limit, at + limit, n + 1);
    }
  }

  lemma {:induction false} LeavesTrack(walk: nat -> Walk, dir: Direction, full: seq<Row>, limit: nat, at: nat, n: nat)
    returns (m: nat, k: nat)
    requires limit > 0 && OnTrack(walk(n), dir, full, at) && !CleanFrom(dir, full, limit, at)
    requires AlwaysProceeds(walk, dir, full, limit)
    ensures walk(m).more && OffTrack(walk(m + 1), full, k)
    decreases |full| - at
  {
    assert Proceeds(walk, dir, full, limit, at, n);
    if CleanCut(dir, full, at + limit) {
      m, k := LeavesTrack(walk, dir, full, limit, at + limit, n + 1);
    } else {
      m, k := n + 1, at + limit;
    }
  }

  function WalkOf(table: seq<Row>, keep: Row -> bool, dir: Direction, limit: nat): nat -> Walk
    requires limit > 0
  {
    (n: nat) => WalkAfter(table, keep, dir, limit, n)
  }

  lemma WalkProceeds(table: seq<Row>, keep: Row -> bool, dir: Direction, limit: nat, full: seq<Row>, at: nat, n: nat)
    requires limit > 0 && Valid(table, keep, dir, full)
    requires OnTrack(WalkAfter(table, keep, dir, limit, n), dir, full, at)
    ensures Proceeds(WalkOf(table, keep, dir, limit), dir, full, limit, at, n)
  {
    if at + limit >= |full| {
      StepOn(table, keep, dir, limit, full, at, n);
    } else if CleanCut(dir, full, at + limit) {
      CleanStep(table, keep, dir, limit, full, at, n);
    } else {
      UncleanStep(table, keep, dir, limit, full, at, n);
    }
  }

  lemma WalkAlwaysProceeds(table: seq<Row>, keep: Row -> bool, dir: Direction, limit: nat, full: seq<Row>)
    requires limit > 0 && Valid(table, keep, dir, full)
    ensures AlwaysProceeds(WalkOf(table, keep, dir, limit), dir, full, limit)
  {
    var walk := WalkOf(table, keep, dir, limit);
    forall n: nat, at: nat | OnTrack(walk(n), dir, full, at)
      ensures Proceeds(walk, dir, full, limit, at, n)
    {
      WalkProceeds(table, keep, dir, limit, full, at, n);
    }
  }

  lemma StartsOnTrack(table: seq<Row>, keep: Row -> bool, dir: Direction, limit: nat, full: seq<Row>)
    requires limit > 0
    ensures OnTrack(WalkAfter(table, keep, dir, limit, 0), dir, full, 0)
  {
  }

  lemma CleanWalkEnds(table: seq<Row>, keep: Row -> bool, dir: Direction, limit: nat, full: seq<Row>)
    requires limit > 0 && Valid(table, keep, dir, full) && CleanCuts(dir, full, limit)
    ensures EndsWith(table, keep, dir, limit, full)
  {
    var walk := WalkOf(table, keep, dir, limit);
    WalkAlwaysProceeds(table, keep, dir, limit, full);
    StartsOnTrack(table, keep, dir, limit, full);
    var m := KeepsTrack(walk, dir, full, limit, 0, 0);
    assert !WalkAfter(table, keep, dir, limit, m).more;
  }

  lemma UncleanWalkFails(table: seq<Row>, keep: Row -> bool, dir: Direction, limit: nat, full: seq<Row>)
    requires limit > 0 && Valid(table, keep, dir, full) && !CleanCuts(dir, full, limit)
    ensures !EndsWith(table, keep, dir, limit, full)
  {
    var walk := WalkOf(table, keep, dir, limit);
    WalkAlwaysProceeds(table, keep, dir, limit, full);
    StartsOnTrack(table, keep, dir, limit, full);
    var m, k := LeavesTrack(walk, dir, full, limit, 0, 0);
    OffTrackForever(table, keep, dir, limit, full, m, k);
  }

  /** In either direction a client ever has exactly the filtered rows, in order, if and only if the cuts are clean. */
  lemma FollowingIsExact(table: seq<Row>, keep: Row -> bool, dir: Direction, limit: nat)
    requires DistinctIds(table) && limit > 0
    ensures EndsWith(table, keep, dir, limit, Full(table, keep, dir))
       <==> CleanCuts(dir, Full(table, keep, dir), limit)
  {
    var full := Full(table, keep, dir);
    FullIsValid(table, keep, dir);
    if CleanCuts(dir, full, limit) {
      CleanWalkEnds(table, keep, dir, limit, full);
    } else {
      UncleanWalkFails(table, keep, dir, limit, full);
    }
  }

  /** Oldest first, a page that is not cut cleanly is followed by one that begins with a row already seen. */
  lemma AscendingRepeats(table: seq<Row>, keep: Row -> bool, limit: nat, k: nat) returns (p: nat)
    requires DistinctIds(table) && limit > 0 && 0 < k < |Full(table, keep, ASC)|
    requires !CleanCut(ASC, Full(table, keep, ASC), k)
    ensures p < k
    ensures var next := PageOf(Matching(table, keep, ASC, Some(Cut(Full(table, keep, ASC)[k - 1]))), limit);
            |next.data| > 0 && next.data[0] == Full(table, keep, ASC)[p]
  {
    var full := Full(table, keep, ASC);
    FullIsValid(table, keep, ASC);
    p := Position(ASC, full, Some(Cut(full[k - 1])));
    PositionSplits(ASC, full, Some(Cut(full[k - 1])));
    assert Before(ASC, KeyOf(full[k - 1]), KeyOf(full[k]));
    MatchingIsSuffix(table, keep, ASC, full, Some(Cut(full[k - 1])), p);
  }

  // ---- Whether a walk ends -------------------------------------------------------------------------------

  /** Where the next page of a walk begins. */
  function At(table: seq<Row>, keep: Row -> bool, dir: Direction, limit: nat, n: nat): nat
    requires limit > 0
  {
    Position(dir, Full(table, keep, dir), WalkAfter(table, keep, dir, limit, n).cursor)
  }

  /** The next page of a walk, by the row at which it begins. */
  lemma NextPage(table: seq<Row>, keep: Row -> bool, dir: Direction, limit: nat, n: nat)
    requires DistinctIds(table) && limit > 0 && WalkAfter(table, keep, dir, limit, n).more
    ensures var full, at := Full(table, keep, dir), At(table, keep, dir, limit, n);
            var w := WalkAfter(table, keep, dir, limit, n + 1);
            && Sorted(dir, full) && at <= |full|
            && (w.more <==> at + limit < |full|)
            && w.cursor == if at + limit < |full| then Some(Cut(full[at + limit - 1])) else None
  {
    var full, cursor := Full(table, keep, dir), WalkAfter(table, keep, dir, limit, n).cursor;
    FullIsValid(table, keep, dir);
    PositionSplits(dir, full, cursor);
    PageAt(table, keep, dir, full, limit, cursor, Position(dir, full, cursor));
  }

  /** The row at which the page after a page begins, if that is full. */
  function Following(full: seq<Row>, dir: Direction, limit: nat, at: nat): nat
    requires limit > 0
  {
    if at + limit < |full| then Position(dir, full, Some(Cut(full[at + limit - 1]))) else 0
  }

  lemma NextStop(table: seq<Row>, keep: Row -> bool, dir: Direction, limit: nat, n: nat)
    requires DistinctIds(table) && limit > 0 && WalkAfter(table, keep, dir, limit, n).more
    ensures At(table, keep, dir, limit, n + 1)
         == Following(Full(table, keep, dir), dir, limit, At(table, keep, dir, limit, n))
  {
    NextPage(table, keep, dir, limit, n);
    NoCursor(dir, Full(table, keep, dir));
  }

  lemma NoCursor(dir: Direction, full: seq<Row>)
    ensures Position(dir, full, None) == 0
  {
  }

  lemma NoMore(table: seq<Row>, keep: Row -> bool, dir: Direction, limit: nat, n: nat)
    requires limit > 0 && !WalkAfter(table, keep, dir, limit, n).more
    ensures WalkAfter(table, keep, dir, limit, n + 1) == WalkAfter(table, keep, dir, limit, n)
  {
  }

  /** The rows at which the pages of a walk begin. */
  function CourseOf(table: seq<Row>, keep: Row -> bool, dir: Direction, limit: nat): Course
    requires limit > 0
  {
    var full := Full(table, keep, dir);
    Course(
      (n: nat) => WalkAfter(table, keep, dir, limit, n).more, (n: nat) => At(table, keep, dir, limit, n),
      (at: nat) => Following(full, dir, limit, at), |full|, limit)
  }

  lemma GoesOn(table: seq<Row>, keep: Row -> bool, dir: Direction, limit: nat, n: nat)
    requires DistinctIds(table) && limit > 0 && WalkAfter(table, keep, dir, limit, n).more
    ensures var full, at := Full(table, keep, dir), At(table, keep, dir, limit, n);
      && at <= |full| && (WalkAfter(table, keep, dir, limit, n + 1).more <==> at + limit < |full|)
      && At(table, keep, dir, limit, n + 1) == if at + limit < |full| then Following(full, dir, limit, at) else 0
  {
    NextPage(table, keep, dir, limit, n);
    NextStop(table, keep, dir, limit, n);
  }

  lemma CourseGives(table: seq<Row>, keep: Row -> bool, dir: Direction, limit: nat, n: nat)
    requires limit > 0
    ensures var c := CourseOf(table, keep, dir, limit);
      && c.size == |Full(table, keep, dir)| && c.limit == limit
      && c.more(n) == WalkAfter(table, keep, dir, limit, n).more && c.at(n) == At(table, keep, dir, limit, n)
      && c.next(n) == Following(Full(table, keep, dir), dir, limit, n)
  {
  }

  lemma StepsOn(c: Course, n: nat, at: nat)
    requires c.more(n) && c.at(n) == at && at <= c.size && (c.more(n + 1) <==> at + c.limit < c.size)
    requires c.at(n + 1) == if at + c.limit < c.size then c.next(at) else 0
    ensures Steps(c, n)
  {
  }

  lemma StepsNoMore(c: Course, n: nat)
    requires !c.more(n) && !c.more(n + 1)
    ensures Steps(c, n)
  {
  }

  lemma WalkSteps(table: seq<Row>, keep: Row -> bool, dir: Direction, limit: nat, n: nat)
    requires DistinctIds(table) && limit > 0
    ensures Steps(CourseOf(table, keep, dir, limit), n)
  {
    CourseGives(table, keep, dir, limit, n);
    CourseGives(table, keep, dir, limit, n + 1);
    var c, at := CourseOf(table, keep, dir, limit), At(table, keep, dir, limit, n);
    if WalkAfter(table, keep, dir, limit, n).more {
      CourseGives(table, keep, dir, limit, at);
      GoesOn(table, keep, dir, limit, n);
      StepsOn(c, n, at);
    } else {
      NoMore(table, keep, dir, limit, n);
      StepsNoMore(c, n);
    }
  }

  lemma WalkIsCourse(table: seq<Row>, keep: Row -> bool, dir: Direction, limit: nat)
    requires DistinctIds(table) && limit > 0
    ensures IsCourse(CourseOf(table, keep, dir, limit))
  {
    forall n: nat
      ensures Steps(CourseOf(table, keep, dir, limit), n)
    {
      WalkSteps(table, keep, dir, limit, n);
    }
    assert WalkAfter(table, keep, dir, limit, 0) == Walk([], None, true);
  }

  /** A walk in either direction ends within one request more than there are rows, or comes back and never ends. */
  lemma EndsSoonOrNever(table: seq<Row>, keep: Row -> bool, dir: Direction, limit: nat)
    requires DistinctIds(table) && limit > 0
    ensures (exists n :: !WalkAfter(table, keep, dir, limit, n).more)
       <==> !WalkAfter(table, keep, dir, limit, |Full(table, keep, dir)| + 1).more
  {
    var c := CourseOf(table, keep, dir, limit);
    WalkIsCourse(table, keep, dir, limit);
    Courses.EndsSoonOrNever(c);
    assert forall n: nat :: c.more(n) == WalkAfter(table, keep, dir, limit, n).more;
  }

  // ---- Oldest first, by the timestamps -------------------------------------------------------------------

  function Millisecond(r: Row): nat {
    r.createdAt / 1000
  }

  /** The page that begins with row `i` is full, is not the last, and lies within one millisecond. */
  predicate CrowdedAt(full: seq<Row>, limit: nat, i: nat) {
    0 < limit && i + limit < |full| && Millisecond(full[i]) == Millisecond(full[i + limit - 1])
  }

  predicate Crowded(full: seq<Row>, limit: nat) {
    exists i: nat :: i < |full| && CrowdedAt(full, limit, i)
  }

  /** A full page that reaches into another millisecond is followed by one that begins further on. */
  lemma SparsePageAdvances(full: seq<Row>, limit: nat, at: nat)
    requires Sorted(ASC, full) && limit > 0 && at + limit < |full| && !CrowdedAt(full, limit, at)
    ensures Position(ASC, full, Some(Cut(full[at + limit - 1]))) > at
  {
    var last := full[at + limit - 1];
    PositionSplits(ASC, full, Some(Cut(last)));
    assert at < at + limit - 1 ==> Before(ASC, KeyOf(full[at]), KeyOf(last));
    assert !After(ASC, Some(Cut(last)), full[at]);
  }

  /** While a crowded page lies ahead, whose rows are later than their millisecond, the next page begins before it. */
  lemma CrowdedPageHolds(full: seq<Row>, limit: nat, at: nat, i: nat)
    requires Sorted(ASC, full) && CrowdedAt(full, limit, i) && full[i].createdAt % 1000 != 0 && at <= i
    ensures Position(ASC, full, Some(Cut(full[at + limit - 1]))) <= i
  {
    var last, far := full[at + limit - 1], full[i + limit - 1];
    PositionSplits(ASC, full, Some(Cut(last)));
    assert at < i ==> Before(ASC, KeyOf(last), KeyOf(far));
    assert last.createdAt / 1000 * 1000 < full[i].createdAt;
    assert After(ASC, Some(Cut(last)), full[i]);
  }

  /** Oldest first, a walk ends when no full page of the list lies within one millisecond. */
  lemma SparseWalkEnds(table: seq<Row>, keep: Row -> bool, limit: nat)
    requires DistinctIds(table) && limit > 0 && !Crowded(Full(table, keep, ASC), limit)
    ensures !WalkAfter(table, keep, ASC, limit, |Full(table, keep, ASC)| + 1).more
  {
    var c, full := CourseOf(table, keep, ASC, limit), Full(table, keep, ASC);
    WalkIsCourse(table, keep, ASC, limit);
    FullIsValid(table, keep, ASC);
    forall x: nat
      ensures Advances(c, x)
    {
      if Goes(c, x) {
        SparsePageAdvances(full, limit, x);
      }
    }
    ForwardEnds(c);
    assert !c.more(|full| + 1);
  }

  /** It never ends when one does, and begins later than with the millisecond. */
  lemma CrowdedWalkNeverEnds(table: seq<Row>, keep: Row -> bool, limit: nat, i: nat, n: nat)
    requires DistinctIds(table) && limit > 0 && CrowdedAt(Full(table, keep, ASC), limit, i)
    requires Full(table, keep, ASC)[i].createdAt % 1000 != 0
    ensures WalkAfter(table, keep, ASC, limit, n).more && At(table, keep, ASC, limit, n) <= i
  {
    var c, full := CourseOf(table, keep, ASC, limit), Full(table, keep, ASC);
    WalkIsCourse(table, keep, ASC, limit);
    FullIsValid(table, keep, ASC);
    forall x: nat
      ensures StaysBefore(c, i, x)
    {
      if x <= i {
        CrowdedPageHolds(full, limit, x, i);
      }
    }
    HeldNeverEnds(c, i, n);
    assert c.more(n) && c.at(n) <= i;
  }

  /** So it is decided by the timestamps when none of them is a whole millisecond. */
  lemma AscendingEndsExactly(table: seq<Row>, keep: Row -> bool, limit: nat)
    requires DistinctIds(table) && limit > 0 && forall r :: r in table && keep(r) ==> r.createdAt % 1000 != 0
    ensures (exists n :: !WalkAfter(table, keep, ASC, limit, n).more) <==> !Crowded(Full(table, keep, ASC), limit)
  {
    var full := Full(table, keep, ASC);
    if Crowded(full, limit) {
      var i: nat :| i < |full| && CrowdedAt(full, limit, i);
      FullIsValid(table, keep, ASC);
      assert full[i] in full;
      forall n
        ensures WalkAfter(table, keep, ASC, limit, n).more
      {
        CrowdedWalkNeverEnds(table, keep, limit, i, n);
      }
    } else {
      SparseWalkEnds(table, keep, limit);
    }
  }

  // ---- Two tables ----------------------------------------------------------------------------------------

  function Every(): Row -> bool {
    (r: Row) => true
  }

  /** Two rows are listed in the order of their timestamps. */
  lemma FullOfTwo(a: Row, b: Row, dir: Direction)
    requires a.id != b.id && Before(dir, KeyOf(a), KeyOf(b))
    ensures DistinctIds([a, b]) && Full([a, b], Every(), dir) == [a, b]
  {
    var full := Full([a, b], Every(), dir);
    FullIsValid([a, b], Every(), dir);
    FullIsShort([a, b], Every(), dir);
    assert a in [a, b] && b in [a, b];
    var i :| 0 <= i < |full| && full[i] == a;
    var j :| 0 <= j < |full| && full[j] == b;
    assert i == 0 && j == 1;
  }

  const LATER_IN_THEIR_MILLISECONDS := [Row(1, 1500), Row(2, 2500)]

  lemma SamePage(cursor: Option<Cursor>)
    requires cursor == None || cursor == Some(Cursor(1000, 1))
    ensures PageOf(Matching(LATER_IN_THEIR_MILLISECONDS, Every(), ASC, cursor), 1)
         == Page([Row(1, 1500)], Some(Cursor(1000, 1)), true)
  {
    var table := LATER_IN_THEIR_MILLISECONDS;
    FullOfTwo(table[0], table[1], ASC);
    FullIsValid(table, Every(), ASC);
    PageAt(table, Every(), ASC, table, 1, cursor, 0);
  }

  /** Oldest first, one row at a time, a client of this table gets the first row over and over. */
  lemma {:induction false} AscendingMayNeverEnd(n: nat)
    ensures WalkAfter(LATER_IN_THEIR_MILLISECONDS, Every(), ASC, 1, n).more
    ensures |WalkAfter(LATER_IN_THEIR_MILLISECONDS, Every(), ASC, 1, n).all| == n
    ensures forall r :: r in WalkAfter(LATER_IN_THEIR_MILLISECONDS, Every(), ASC, 1, n).all ==> r == Row(1, 1500)
    ensures n > 0 ==> WalkAfter(LATER_IN_THEIR_MILLISECONDS, Every(), ASC, 1, n).cursor == Some(Cursor(1000, 1))
  {
    if n == 0 {
    } else {
      AscendingMayNeverEnd(n - 1);
      SamePage(WalkAfter(LATER_IN_THEIR_MILLISECONDS, Every(), ASC, 1, n - 1).cursor);
    }
  }

  const WITHIN_ONE_MILLISECOND := [Row(2, 1700), Row(1, 1200)]

  /** Newest first, one row at a time, the second row of this table is never shown. */
  lemma DescendingMaySkip()
    ensures WalkAfter(WITHIN_ONE_MILLISECOND, Every(), DESC, 1, 2) == Walk([Row(2, 1700)], None, false)
    ensures Full(WITHIN_ONE_MILLISECOND, Every(), DESC) == [Row(2, 1700), Row(1, 1200)]
  {
    var table := WITHIN_ONE_MILLISECOND;
    FullOfTwo(table[0], table[1], DESC);
    FullIsValid(table, Every(), DESC);
    PageAt(table, Every(), DESC, table, 1, None, 0);
    assert WalkAfter(table, Every(), DESC, 1, 0) == Walk([], None, true);
    assert WalkAfter(table, Every(), DESC, 1, 1) == Walk([Row(2, 1700)], Some(Cursor(1000, 2)), true);
    PageAt(table, Every(), DESC, table, 1, Some(Cursor(1000, 2)), 2);
  }
}
