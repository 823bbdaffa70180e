/**
 `assignNextExam` of `exam.service.ts`: which exam of a certificate a student is given next, and what repeating
 assign, sit and submit comes to.
 */
module Assignment {
  import opened Wrappers
  import opened ExamData
  import opened Counting
  import opened Sorting

  /** `attempted` holds the user, certificate and exam of every attempt row. */
  datatype Records = Records(exams: seq<Exam>, codes: seq<AccessCode>, attempted: set<(string, string, string)>)

  datatype Error = NoExams | PoolExhausted | CodeOutstanding

  const ACCESS_CODE_TTL_MS: nat := 86_400_000

  /** The primary key of exams, and the unique order of each certificate's exams. */
  predicate Keyed(exams: seq<Exam>) {
    forall i, j :: 0 <= i < j < |exams| ==>
      exams[i].id != exams[j].id && (exams[i].certId == exams[j].certId ==> exams[i].examOrder != exams[j].examOrder)
  }

  // ---- The pool ------------------------------------------------------------------------------------------

  function ByOrder(): (Exam, Exam) -> bool {
    (a: Exam, b: Exam) => a.examOrder < b.examOrder
  }

  /** The published exams of the certificate, `exam_order` ascending. */
  function Pool(exams: seq<Exam>, certId: string): seq<Exam> {
    SortBy(Filter(exams, (e: Exam) => e.certId == certId && e.published), ByOrder())
  }

  predicate Ascending(pool: seq<Exam>) {
    forall i, j :: 0 <= i < j < |pool| ==> pool[i].examOrder < pool[j].examOrder && pool[i].id != pool[j].id
  }

  lemma SortAscends(exams: seq<Exam>, certId: string)
    requires Keyed(exams) && forall e :: e in exams ==> e.certId == certId
    ensures Ascending(SortBy(exams, ByOrder())) && forall x :: x in SortBy(exams, ByOrder()) <==> x in exams
  {
    var sorted := SortBy(exams, ByOrder());
    assert Comparable(exams, ByOrder());
    SortBySorts(exams, ByOrder());
    forall x
      ensures x in sorted <==> x in exams
    {
      assert x in multiset(sorted) <==> x in multiset(exams);
    }
    forall i, j | 0 <= i < j < |sorted|
      ensures sorted[i].examOrder < sorted[j].examOrder && sorted[i].id != sorted[j].id
    {
      assert ByOrder()(sorted[i], sorted[j]);
      assert sorted[i] in exams && sorted[j] in exams;
      KeyedEqual(exams, sorted[i], sorted[j]);
    }
  }

  /** The same key means the same exam. */
  lemma KeyedEqual(exams: seq<Exam>, x: Exam, y: Exam)
    requires Keyed(exams) && x in exams && y in exams
    ensures x.id == y.id ==> x == y
  {
    var i :| 0 <= i < |exams| && exams[i] == x;
    var j :| 0 <= j < |exams| && exams[j] == y;
    assert i == j || i < j || j < i;
  }

  lemma {:induction false} FilterKeyed(exams: seq<Exam>, p: Exam -> bool)
    requires Keyed(exams)
    ensures Keyed(Filter(exams, p))
  {
    if exams == [] {
    } else {
      FilterKeyed(exams[1..], p);
      FilterKeeps(exams[1..], p);
      forall e | e in Filter(exams[1..], p)
        ensures e.id != exams[0].id && (e.certId == exams[0].certId ==> e.examOrder != exams[0].examOrder)
      {
        assert e in exams[1..];
      }
    }
  }

  /** The pool has the published exams of the certificate and no others, each once, in strictly ascending order. */
  lemma PoolAscends(exams: seq<Exam>, certId: string)
    requires Keyed(exams)
    ensures Ascending(Pool(exams, certId))
    ensures forall e :: e in Pool(exams, certId) <==> e in exams && e.certId == certId && e.published
  {
    var wanted := (e: Exam) => e.certId == certId && e.published;
    FilterKeyed(exams, wanted);
    FilterKeeps(exams, wanted);
    SortAscends(Filter(exams, wanted), certId);
  }

  // ---- The next exam -------------------------------------------------------------------------------------

  function NotIn(attempted: set<(string, string, string)>, user: string, certId: string): Exam -> bool {
    (e: Exam) => (user, certId, e.id) !in attempted
  }

  /** The exams of the pool that the student has not attempted. */
  function Unattempted(r: Records, user: string, certId: string): seq<Exam> {
    Filter(Pool(r.exams, certId), NotIn(r.attempted, user, certId))
  }

  /** What `findOne` may return for an unused code of the exam: any such code, and none only if there is none. */
  predicate MayFind(codes: seq<AccessCode>, user: string, examId: string, found: Option<AccessCode>) {
    match found
    case Some(c) => c in codes && c.userId == user && c.examId == examId && !c.used
    case None => forall c :: c in codes ==> !(c.userId == user && c.examId == examId && !c.used)
  }

  /** `assignNextExam`; the code that the query for an outstanding one returned is a parameter. */
  function AssignNextExam(r: Records, user: string, certId: string, now: nat, found: Option<AccessCode>)
    : Result<Exam, Error>
  {
    if Pool(r.exams, certId) == [] then Err(NoExams)
    else if Unattempted(r, user, certId) == [] then Err(PoolExhausted)
    else if found.Some? && found.value.expiresAt > now then Err(CodeOutstanding)
    else Ok(Unattempted(r, user, certId)[0])
  }

  /** The codes after it; `secret` is the random text of a new one. */
  function CodesAfter(r: Records, user: string, now: nat, secret: string, outcome: Result<Exam, Error>)
    : seq<AccessCode>
  {
    match outcome
    case Ok(e) => r.codes + [AccessCode(user, e.id, e.certId, secret, now, now + ACCESS_CODE_TTL_MS, false)]
    case Err(_) => r.codes
  }

  // ---- What it amounts to ----------------------------------------------------------------------------------

  predicate Published(r: Records, certId: string, e: Exam) {
    e in r.exams && e.certId == certId && e.published
  }

  predicate Open(r: Records, user: string, certId: string, e: Exam) {
    Published(r, certId, e) && (user, certId, e.id) !in r.attempted
  }

  /** The open exam of the lowest order. */
  ghost predicate IsNext(r: Records, user: string, certId: string, e: Exam) {
    Open(r, user, certId, e) && forall other :: Open(r, user, certId, other) ==> e.examOrder <= other.examOrder
  }

  lemma PoolHas(exams: seq<Exam>, certId: string)
    ensures forall e :: e in Pool(exams, certId) <==> e in exams && e.certId == certId && e.published
  {
    var wanted := (e: Exam) => e.certId == certId && e.published;
    var offered := Filter(exams, wanted);
    FilterKeeps(exams, wanted);
    SortKeeps(offered, ByOrder());
    forall e
      ensures e in Pool(exams, certId) <==> e in offered
    {
      assert e in Pool(exams, certId) <==> e in multiset(Pool(exams, certId));
      assert e in offered <==> e in multiset(offered);
    }
  }

  lemma UnattemptedAreOpen(r: Records, user: string, certId: string)
    ensures forall e :: e in Unattempted(r, user, certId) <==> Open(r, user, certId, e)
  {
    PoolHas(r.exams, certId);
    FilterKeeps(Pool(r.exams, certId), NotIn(r.attempted, user, certId));
  }

  lemma {:induction false} FilterHead(pool: seq<Exam>, p: Exam -> bool)
    requires Ascending(pool) && Filter(pool, p) != []
    ensures forall e :: e in pool && p(e) ==> Filter(pool, p)[0].examOrder <= e.examOrder
  {
    if p(pool[0]) {
    } else {
      FilterHead(pool[1..], p);
      assert pool == [pool[0]] + pool[1..];
    }
  }

  lemma FirstIsNext(r: Records, user: string, certId: string)
    requires Keyed(r.exams) && Unattempted(r, user, certId) != []
    ensures IsNext(r, user, certId, Unattempted(r, user, certId)[0])
  {
    var first := Unattempted(r, user, certId)[0];
    UnattemptedAreOpen(r, user, certId);
    assert first in Unattempted(r, user, certId);
    PoolAscends(r.exams, certId);
    FilterHead(Pool(r.exams, certId), NotIn(r.attempted, user, certId));
    forall other | Open(r, user, certId, other)
      ensures first.examOrder <= other.examOrder
    {
      assert other in Pool(r.exams, certId);
    }
  }

  /** Each outcome, in terms of the exams and the attempts. */
  lemma OutcomesExactly(r: Records, user: string, certId: string, now: nat, found: Option<AccessCode>)
    ensures var outcome := AssignNextExam(r, user, certId, now, found);
      && (outcome == Err(NoExams) <==> forall e :: !Published(r, certId, e))
      && (outcome == Err(PoolExhausted) <==>
            (exists e :: Published(r, certId, e)) && (forall e :: !Open(r, user, certId, e)))
      && (outcome == Err(CodeOutstanding) <==>
            (exists e :: Open(r, user, certId, e)) && found.Some? && found.value.expiresAt > now)
      && (outcome.Ok? ==> Open(r, user, certId, outcome.value))
      && (outcome.Ok? && Keyed(r.exams) ==> IsNext(r, user, certId, outcome.value))
  {
    PoolHas(r.exams, certId);
    UnattemptedAreOpen(r, user, certId);
    var pool, left := Pool(r.exams, certId), Unattempted(r, user, certId);
    assert forall e :: Published(r, certId, e) <==> e in pool;
    assert forall e :: Open(r, user, certId, e) <==> e in left;
    if pool != [] {
      assert pool[0] in pool && Published(r, certId, pool[0]);
    }
    if left != [] {
      assert left[0] in left && Open(r, user, certId, left[0]);
      if Keyed(r.exams) {
        FirstIsNext(r, user, certId);
      }
    }
  }

  predicate UnusedCode(codes: seq<AccessCode>, user: string, examId: string, c: AccessCode) {
    c in codes && c.userId == user && c.examId == examId && !c.used
  }

  /** More attempts, none of them of exam `e`, leave it the next one. */
  lemma {:induction false} StillFirst(pool: seq<Exam>, p: Exam -> bool, q: Exam -> bool)
    requires Filter(pool, p) != [] && q(Filter(pool, p)[0]) && forall e :: e in pool && q(e) ==> p(e)
    ensures Filter(pool, q) != [] && Filter(pool, q)[0] == Filter(pool, p)[0]
  {
    if p(pool[0]) {
    } else {
      assert pool[0] in pool;
      StillFirst(pool[1..], p, q);
    }
  }

  /**
   While the assigned exam stays unattempted, a second assignment is refused exactly when the unused code that
   the unordered query returns is still valid; so it is refused for certain only if no unused code of the exam
   has expired.
   */
  lemma SecondExactly(
      r: Records, user: string, certId: string, now: nat, found: Option<AccessCode>, e: Exam, r2: Records, later: nat)
    requires AssignNextExam(r, user, certId, now, found) == Ok(e)
    requires r2.exams == r.exams && r.attempted <= r2.attempted && (user, certId, e.id) !in r2.attempted
    ensures forall found2 ::
              AssignNextExam(r2, user, certId, later, found2) ==
              if found2.Some? && found2.value.expiresAt > later then Err(CodeOutstanding) else Ok(e)
    ensures (forall found2 ::
               MayFind(r2.codes, user, e.id, found2) ==>
                 AssignNextExam(r2, user, certId, later, found2) == Err(CodeOutstanding))
       <==> && (exists c :: UnusedCode(r2.codes, user, e.id, c))
            && (forall c :: UnusedCode(r2.codes, user, e.id, c) ==> c.expiresAt > later)
  {
    StillFirst(Pool(r.exams, certId), NotIn(r.attempted, user, certId), NotIn(r2.attempted, user, certId));
    forall c | UnusedCode(r2.codes, user, e.id, c)
      ensures MayFind(r2.codes, user, e.id, Some(c))
    {
    }
    if !exists c :: UnusedCode(r2.codes, user, e.id, c) {
      forall c | c in r2.codes
        ensures !(c.userId == user && c.examId == e.id && !c.used)
      {
        assert !UnusedCode(r2.codes, user, e.id, c);
      }
      assert MayFind(r2.codes, user, e.id, None);
    }
  }

  /** The code of a first assignment, alone and unused, stands in the way of a second one for its 24 hours. */
  lemma SecondIsRefused(
      r: Records, user: string, certId: string, now: nat, found: Option<AccessCode>, e: Exam, secret: string,
      r2: Records, later: nat, found2: Option<AccessCode>)
    requires AssignNextExam(r, user, certId, now, found) == Ok(e)
    requires r2.exams == r.exams && r.attempted <= r2.attempted && (user, certId, e.id) !in r2.attempted
    requires var issued := CodesAfter(r, user, now, secret, Ok(e))[|r.codes|];
             forall c :: UnusedCode(r2.codes, user, e.id, c) <==> c == issued
    requires MayFind(r2.codes, user, e.id, found2) && later < now + 86_400_000
    ensures AssignNextExam(r2, user, certId, later, found2) == Err(CodeOutstanding)
  {
    var issued := CodesAfter(r, user, now, secret, Ok(e))[|r.codes|];
    assert UnusedCode(r2.codes, user, e.id, issued);
    SecondExactly(r, user, certId, now, found, e, r2, later);
    if found2.Some? {
      assert UnusedCode(r2.codes, user, e.id, found2.value);
    }
  }

  /** With a code of yesterday unused, one of today does not stand in the way of a third. */
  lemma ExpiredHidesValid(user: string, e: Exam, secrets: seq<string>)
    requires e.published && |secrets| == 2
    ensures var day := 86_400_000;
            var r0 := Records([e], [], {});
            var r1 := r0.(codes := CodesAfter(r0, user, 0, secrets[0], Ok(e)));
            var r2 := r1.(codes := CodesAfter(r1, user, day, secrets[1], Ok(e)));
            && AssignNextExam(r0, user, e.certId, 0, None) == Ok(e) && MayFind(r0.codes, user, e.id, None)
            && AssignNextExam(r1, user, e.certId, day, Some(r1.codes[0])) == Ok(e)
            && MayFind(r1.codes, user, e.id, Some(r1.codes[0]))
            && AssignNextExam(r2, user, e.certId, day + 1, Some(r2.codes[0])) == Ok(e)
            && MayFind(r2.codes, user, e.id, Some(r2.codes[0]))
            && UnusedCode(r2.codes, user, e.id, r2.codes[1]) && r2.codes[1].expiresAt > day + 1
  {
    OnlyExam(user, e);
  }

  lemma OnlyExam(user: string, e: Exam)
    requires e.published
    ensures Pool([e], e.certId) == [e]
    ensures forall codes :: Unattempted(Records([e], codes, {}), user, e.certId) == [e]
  {
    var pool := Pool([e], e.certId);
    PoolAscends([e], e.certId);
    assert e in pool;
    forall i | 0 <= i < |pool|
      ensures pool[i] == e
    {
      assert pool[i] in pool;
    }
    assert |pool| > 1 ==> pool[0].id != pool[1].id;
    FilterAll(pool, NotIn({}, user, e.certId));
  }

  predicate Usable(c: AccessCode, user: string, examId: string, now: nat) {
    c.userId == user && c.examId == examId && !c.used && c.expiresAt > now
  }

  // ---- Assign, sit, submit -------------------------------------------------------------------------------

  /** One round: the assignment gives a code or finds one outstanding, and the student sits that exam with a code. */
  ghost predicate Round(r: Records, user: string, certId: string, now: nat, exam: Exam, r': Records) {
    exists found: Option<AccessCode>, secret: string, k: nat ::
      RoundWith(r, user, certId, now, exam, r', found, secret, k)
  }

  predicate RoundWith(
      r: Records, user: string, certId: string, now: nat, exam: Exam, r': Records, found: Option<AccessCode>,
      secret: string, k: nat) {
    var outcome := AssignNextExam(r, user, certId, now, found);
    var codes := CodesAfter(r, user, now, secret, outcome);
    && Unattempted(r, user, certId) != [] && MayFind(r.codes, user, Unattempted(r, user, certId)[0].id, found)
    && (outcome == Ok(exam) || (outcome == Err(CodeOutstanding) && exam.id == found.value.examId && exam in r.exams))
    && k < |codes| && Usable(codes[k], user, exam.id, now)
    && r' == r.(codes := codes[k := codes[k].(used := true)], attempted := r.attempted + {(user, certId, exam.id)})
  }

  datatype Visit = Visit(now: nat, exam: Exam)

  ghost predicate Rounds(r: Records, user: string, certId: string, visits: seq<Visit>, r': Records)
    decreases |visits|
  {
    if visits == [] then r' == r
    else exists mid :: Round(r, user, certId, visits[0].now, visits[0].exam, mid)
                       && Rounds(mid, user, certId, visits[1..], r')
  }

  lemma {:induction false} FilterFirst(pool: seq<Exam>, p: Exam -> bool, q: Exam -> bool)
    requires Ascending(pool) && Filter(pool, p) != []
    requires forall e :: e in pool ==> (q(e) <==> p(e) && e.id != Filter(pool, p)[0].id)
    ensures Filter(pool, q) == Filter(pool, p)[1..]
  {
    if p(pool[0]) {
      assert Filter(pool, p) == [pool[0]] + Filter(pool[1..], p);
      forall e | e in pool[1..]
        ensures q(e) <==> p(e)
      {
        var i :| 0 <= i < |pool[1..]| && pool[1..][i] == e;
        assert pool[i + 1] == e;
      }
      FilterSame(pool[1..], p, q);
    } else {
      FilterFirst(pool[1..], p, q);
    }
  }

  lemma {:induction false} FilterSame(pool: seq<Exam>, p: Exam -> bool, q: Exam -> bool)
    requires forall e :: e in pool ==> (q(e) <==> p(e))
    ensures Filter(pool, q) == Filter(pool, p)
  {
    if pool == [] {
    } else {
      FilterSame(pool[1..], p, q);
    }
  }

  /** A round takes the lowest unattempted exam and leaves the others. */
  lemma RoundTakesFirst(r: Records, user: string, certId: string, now: nat, exam: Exam, r': Records)
    requires Keyed(r.exams) && Round(r, user, certId, now, exam, r')
    ensures Unattempted(r, user, certId) != [] && exam == Unattempted(r, user, certId)[0] && r'.exams == r.exams
    ensures Unattempted(r', user, certId) == Unattempted(r, user, certId)[1..]
  {
    var pool := Pool(r.exams, certId);
    var found: Option<AccessCode>, secret: string, k: nat :|
      RoundWith(r, user, certId, now, exam, r', found, secret, k);
    PoolAscends(r.exams, certId);
    var first := Unattempted(r, user, certId)[0];
    FilterKeeps(pool, NotIn(r.attempted, user, certId));
    assert first in pool;
    KeyedEqual(r.exams, first, exam);
    FilterFirst(pool, NotIn(r.attempted, user, certId), NotIn(r'.attempted, user, certId));
  }

  /** However long it is repeated, the exams sat are the unattempted ones from the lowest order up, each once. */
  lemma {:induction false} RoundsVisitInOrder(r: Records, user: string, certId: string, visits: seq<Visit>, r': Records)
    requires Keyed(r.exams) && Rounds(r, user, certId, visits, r')
    ensures |visits| <= |Unattempted(r, user, certId)| && r'.exams == r.exams
    ensures forall k :: 0 <= k < |visits| ==> visits[k].exam == Unattempted(r, user, certId)[k]
    ensures Unattempted(r', user, certId) == Unattempted(r, user, certId)[|visits|..]
    decreases |visits|
  {
    if visits == [] {
    } else {
      var mid :| Round(r, user, certId, visits[0].now, visits[0].exam, mid)
                 && Rounds(mid, user, certId, visits[1..], r');
      RoundTakesFirst(r, user, certId, visits[0].now, visits[0].exam, mid);
      RoundsVisitInOrder(mid, user, certId, visits[1..], r');
      forall k | 0 <= k < |visits|
        ensures visits[k].exam == Unattempted(r, user, certId)[k]
      {
        if k > 0 {
          assert visits[1..][k - 1] == visits[k];
        }
      }
    }
  }

  /** While an exam is left, the next round can be had, whatever codes the student holds. */
  lemma RoundsGoOn(r: Records, user: string, certId: string, now: nat, found: Option<AccessCode>, secret: string)
    returns (r': Records)
    requires Keyed(r.exams) && Unattempted(r, user, certId) != []
    requires MayFind(r.codes, user, Unattempted(r, user, certId)[0].id, found)
    ensures Round(r, user, certId, now, Unattempted(r, user, certId)[0], r')
  {
    var exam := Unattempted(r, user, certId)[0];
    var outcome := AssignNextExam(r, user, certId, now, found);
    var codes := CodesAfter(r, user, now, secret, outcome);
    PoolAscends(r.exams, certId);
    FilterKeeps(Pool(r.exams, certId), NotIn(r.attempted, user, certId));
    assert exam in Pool(r.exams, certId);
    var k: nat;
    if outcome.Ok? {
      k := |r.codes|;
    } else {
      k :| 0 <= k < |codes| && codes[k] == found.value;
    }
    r' := r.(codes := codes[k := codes[k].(used := true)], attempted := r.attempted + {(user, certId, exam.id)});
    assert RoundWith(r, user, certId, now, exam, r', found, secret, k);
  }

  predicate Refused(outcome: Result<Exam, Error>) {
    outcome.Err? && !outcome.error.CodeOutstanding?
  }

  /** A student who has attempted nothing sits the whole pool in order before an assignment is refused for good. */
  lemma WholePoolThenRefused(
      r: Records, user: string, certId: string, visits: seq<Visit>, r': Records, now: nat, found: Option<AccessCode>)
    requires Keyed(r.exams) && Rounds(r, user, certId, visits, r')
    requires forall e :: e in Pool(r.exams, certId) ==> (user, certId, e.id) !in r.attempted
    ensures |visits| <= |Pool(r.exams, certId)|
    ensures forall k :: 0 <= k < |visits| ==> visits[k].exam == Pool(r.exams, certId)[k]
    ensures Refused(AssignNextExam(r', user, certId, now, found)) <==> |visits| == |Pool(r.exams, certId)|
  {
    RoundsVisitInOrder(r, user, certId, visits, r');
    FilterAll(Pool(r.exams, certId), NotIn(r.attempted, user, certId));
  }

  lemma {:induction false} FilterAll(pool: seq<Exam>, p: Exam -> bool)
    requires forall e :: e in pool ==> p(e)
    ensures Filter(pool, p) == pool
  {
    if pool == [] {
    } else {
      FilterAll(pool[1..], p);
    }
  }

  lemma FilterSkips(pool: seq<Exam>, k: nat, p: Exam -> bool)
    requires k < |pool| && !p(pool[k])
    ensures Filter(pool[k..], p) == Filter(pool[k + 1..], p)
  {
    assert pool[k..][1..] == pool[k + 1..];
  }

  lemma FilterTakes(pool: seq<Exam>, k: nat, p: Exam -> bool)
    requires k < |pool| && p(pool[k])
    ensures Filter(pool[k..], p) != [] && Filter(pool[k..], p)[0] == pool[k]
  {
  }

  /** `Published` and `Open`, written out. */
  lemma PublishedLiterally(r: Records, user: string, certId: string)
    ensures (exists e :: Published(r, certId, e)) <==> exists e :: e in r.exams && e.certId == certId && e.published
    ensures (exists e :: Open(r, user, certId, e)) <==>
            exists e :: && e in r.exams && e.certId == certId && e.published
                        && (user, certId, e.id) !in r.attempted
  {
    assert forall e :: e in r.exams && e.certId == certId && e.published ==> Published(r, certId, e);
    assert forall e :: e in r.exams && e.certId == certId && e.published && (user, certId, e.id) !in r.attempted
                   ==> Open(r, user, certId, e);
  }

  lemma OpenIsNext(r: Records, user: string, certId: string, e: Exam)
    requires Unattempted(r, user, certId) != [] && e == Unattempted(r, user, certId)[0]
    ensures Open(r, user, certId, e) && (Keyed(r.exams) ==> IsNext(r, user, certId, e))
  {
    UnattemptedAreOpen(r, user, certId);
    assert e in Unattempted(r, user, certId);
    if Keyed(r.exams) {
      FirstIsNext(r, user, certId);
    }
  }

  // ---- The service ---------------------------------------------------------------------------------------

  class AssignmentService {
    var exams: seq<Exam>
    var codes: seq<AccessCode>
    var attempted: set<(string, string, string)>

    constructor (exams: seq<Exam>)
      ensures this.exams == exams && codes == [] && attempted == {}
    {
      this.exams, codes, attempted := exams, [], {};
    }

    ghost function Contents(): Records
      reads this
    {
      Records(exams, codes, attempted)
    }

    /** The unordered `findOne` for an unused code of this exam. */
    method FindOutstanding(user: string, examId: string) returns (found: Option<AccessCode>)
      ensures MayFind(codes, user, examId, found)
    {
      if c :| c in codes && c.userId == user && c.examId == examId && !c.used {
        found := Some(c);
      } else {
        found := None;
      }
    }

    method FindOpen(pool: seq<Exam>, user: string, certId: string) returns (next: Option<Exam>)
      ensures var left := Filter(pool, NotIn(attempted, user, certId));
              next == if left == [] then None else Some(left[0])
    {
      ghost var open := NotIn(attempted, user, certId);
      for k := 0 to |pool|
        invariant Filter(pool[k..], open) == Filter(pool, open)
      {
        if (user, certId, pool[k].id) !in attempted {
          FilterTakes(pool, k, open);
          return Some(pool[k]);
        }
        FilterSkips(pool, k, open);
      }
      next := None;
    }

    method AssignNext(user: string, certId: string, now: nat, secret: string)
      returns (r: Result<Exam, Error>, ghost found: Option<AccessCode>)
      modifies this
      ensures exams == old(exams) && attempted == old(attempted)
      ensures Unattempted(old(Contents()), user, certId) != []
          ==> MayFind(old(codes), user, Unattempted(old(Contents()), user, certId)[0].id, found)
      ensures r == AssignNextExam(old(Contents()), user, certId, now, found)
      ensures codes == CodesAfter(old(Contents()), user, now, secret, r)
      ensures r == Err(NoExams) <==> forall e :: e in exams ==> !(e.certId == certId && e.published)
      ensures r == Err(PoolExhausted) <==>
                && (exists e :: e in exams && e.certId == certId && e.published)
                && (forall e :: e in exams && e.certId == certId && e.published ==> (user, certId, e.id) in attempted)
      ensures r == Err(CodeOutstanding) <==>
                && (exists e :: e in exams && e.certId == certId && e.published && (user, certId, e.id) !in attempted)
                && found.Some? && found.value.expiresAt > now
      ensures found.Some? ==>
                && found.value in old(codes) && found.value.userId == user && !found.value.used
                && exists e :: && Open(old(Contents()), user, certId, e) && e.id == found.value.examId
                               && (Keyed(exams) ==> IsNext(old(Contents()), user, certId, e))
      ensures r.Ok? ==>
                && r.value in exams && r.value.certId == certId && r.value.published
                && (user, certId, r.value.id) !in attempted
                && (Keyed(exams) ==> IsNext(old(Contents()), user, certId, r.value))
                && codes == old(codes)
                          + [AccessCode(user, r.value.id, certId, secret, now, now + 86_400_000, false)]
      ensures r.Err? ==> codes == old(codes)
    {
      found := None;
      ghost var was := Contents();
      OutcomesExactly(was, user, certId, now, found);
      PublishedLiterally(was, user, certId);
      var pool := Pool(exams, certId);
      if pool == [] {
        return Err(NoExams), found;
      }
      var next := FindOpen(pool, user, certId);
      if next.None? {
        return Err(PoolExhausted), found;
      }
      var outstanding := FindOutstanding(user, next.value.id);
      found := outstanding;
      OutcomesExactly(was, user, certId, now, found);
      OpenIsNext(was, user, certId, next.value);
      if outstanding.Some? && outstanding.value.expiresAt > now {
        return Err(CodeOutstanding), found;
      }
      codes := codes + [
        AccessCode(user, next.value.id, next.value.certId, secret, now, now + ACCESS_CODE_TTL_MS, false)];
      r := Ok(next.value);
    }
  }
}
