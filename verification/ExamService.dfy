/**
 `exam.service.ts` and the two expiry handlers of `exam-keyspace.handler.ts`, statement by statement. Each
 method is proved to leave both stores where the protocol leaves them when its request runs alone.
 */
module ExamService {
  import opened Wrappers
  import opened ExamData
  import opened RedisStore
  import opened SessionProtocol
  import opened SessionFlow
  import opened SoloRuns
  import opened ExamOutcomes
  import opened TestSessions
  import Scoring
  import Backend = ExamBackend

  datatype Failure = NotFound | Forbidden | Unprocessable | Conflict | RedisDown

  /** A row of `exam_attempts`: the attempt itself, and the columns that follow from it and from its times. */
  datatype AttemptRow = AttemptRow(
    attempt: Attempt, certId: string, score: int, passed: bool, startedAt: nat, submittedAt: nat, durationSeconds: int)

  function Recorded(
      id: Identity, answers: Answers, auto: bool, lateFlag: bool, result: Scoring.ScoreResult, now: nat): AttemptRow {
    AttemptRow(
      Attempt(id.userId, id.examId, answers, auto, lateFlag), id.certId, result.score, result.passed,
      id.startedAt, now, Scoring.Rounded(now - id.startedAt, 1000))
  }

  /** The columns of an attempt; its duration is the whole number of seconds nearest to the time it took. */
  lemma RecordedColumns(
      id: Identity, answers: Answers, auto: bool, lateFlag: bool, result: Scoring.ScoreResult, now: nat)
    requires id.startedAt <= now
    ensures var record := Recorded(id, answers, auto, lateFlag, result, now);
      && record.attempt.userId == id.userId && record.attempt.examId == id.examId && record.certId == id.certId
      && record.attempt.answers == answers && record.attempt.auto == auto && record.attempt.lateFlag == lateFlag
      && record.score == result.score && record.passed == result.passed
      && record.startedAt == id.startedAt && record.submittedAt == now
      && -500 <= now - id.startedAt - 1000 * record.durationSeconds < 500
  {
  }

  function AttemptsIn(rows: seq<AttemptRow>): (attempts: seq<Attempt>)
    ensures |attempts| == |rows|
  {
    seq(|rows|, i requires 0 <= i < |rows| => rows[i].attempt)
  }

  lemma AttemptsAppend(rows: seq<AttemptRow>, row: AttemptRow)
    ensures AttemptsIn(rows + [row]) == AttemptsIn(rows) + [row.attempt]
  {
  }

  /** Which error a request for a row in another state is given. */
  predicate Rejected<T(==)>(row: Option<Row>, userId: string, status: Status, r: Result<T, Failure>) {
    && (row.None? ==> r == Err(NotFound))
    && (row.Some? && row.value.id.userId != userId ==> r == Err(Forbidden))
    && (row.Some? && row.value.id.userId == userId && row.value.status != status ==> r == Err(Unprocessable))
  }

  class ExamService {
    var exams: map<string, Exam>
    var codes: map<string, AccessCode>
    var rows: map<string, Row>
    var attempts: map<string, seq<AttemptRow>>
    const tests: TestSessionService

    constructor (tests: TestSessionService)
      requires tests.Valid()
      ensures Valid() && this.tests == tests
    {
      this.tests := tests;
      exams, codes, rows, attempts := map[], map[], map[], map[];
    }

    ghost predicate Valid()
      reads this, tests, tests.redis
    {
      && tests.Valid()
      && (forall sid :: sid in rows ==> rows[sid].id.sessionId == sid)
    }

    ghost function RowOf(sessionId: string): Option<Row>
      reads this
    {
      if sessionId in rows then Some(rows[sessionId]) else None
    }

    function RecordsOf(sessionId: string): seq<AttemptRow>
      reads this
    {
      if sessionId in attempts then attempts[sessionId] else []
    }

    ghost function AttemptsOf(sessionId: string): seq<Attempt>
      reads this
    {
      AttemptsIn(RecordsOf(sessionId))
    }

    /** The slice of both stores that belongs to one session. */
    ghost function Slice(sid: string): Stores
      reads this, tests, tests.redis
    {
      Stores(RowOf(sid), AttemptsOf(sid),
             tests.SessionOf(sid), tests.redis.published[SessionKey(sid)],
             tests.GraceOf(sid), tests.redis.published[GraceKey(sid)])
    }

    ghost function View(id: Identity): Session
      reads this, tests, tests.redis
    {
      Seen(id, Slice(id.sessionId))
    }

    /** One awaited call was made, and other sessions are untouched. */
    twostate predicate Did(id: Identity, p: Proc)
      requires !p.Finished?
      reads this, tests, tests.redis
    {
      && Valid()
      && tests.redis.now == old(tests.redis.now)
      && codes == old(codes) && exams == old(exams)
      && View(id) == Quiet(Perform(old(View(id)), tests.redis.now, p).0)
      && (forall other :: other != id.sessionId ==> Slice(other) == old(Slice(other)))
    }

    /** The stores are where the request leaves them when it runs alone, and other sessions are untouched. */
    twostate predicate Ran(id: Identity, p: Proc)
      reads this, tests, tests.redis
    {
      && Valid()
      && tests.redis.now == old(tests.redis.now)
      && codes == old(codes) && exams == old(exams)
      && View(id) == Solo(old(View(id)), tests.redis.now, p)
      && (forall other :: other != id.sessionId ==> Slice(other) == old(Slice(other)))
    }

    /**
     From the slice `s`, a submission of these answers: the row, exactly one new attempt, and no countdown. Nothing
     else of the session is different, and nothing of any other.
     */
    ghost predicate Submitted(id: Identity, s: Stores, answers: Answers, auto: bool, lateFlag: bool)
      reads this, tests, tests.redis
    {
      && s.row.Some?
      && var row := s.row.value;
         Slice(id.sessionId)
         == s.(row := Some(row.(status := if auto then AUTO_SUBMITTED else SUBMITTED, snapshot := Some(answers))),
               attempts := s.attempts + [Attempt(row.id.userId, row.id.examId, answers, auto, lateFlag)],
               key := None, keyEvents := s.keyEvents + Announced(s.key, tests.redis.now))
    }

    /** `getOwnedSession` with one allowed status. */
    method GetOwnedSession(sessionId: string, userId: string, status: Status) returns (found: Result<Row, Failure>)
      ensures found.Ok? <==> Allowed(RowOf(sessionId), userId, status)
      ensures found.Ok? ==> RowOf(sessionId) == Some(found.value)
      ensures found == Err(NotFound) <==> sessionId !in rows
      ensures found == Err(Forbidden) <==> sessionId in rows && rows[sessionId].id.userId != userId
      ensures found == Err(Unprocessable) <==>
                sessionId in rows && rows[sessionId].id.userId == userId && rows[sessionId].status != status
    {
      if sessionId !in rows {
        return Err(NotFound);
      }
      var session := rows[sessionId];
      if session.id.userId != userId {
        return Err(Forbidden);
      }
      found := if session.status == status then Ok(session) else Err(Unprocessable);
    }

    method ReadKey(id: Identity, answers: Answers) returns (existing: Option<SessionData>)
      requires Valid()
      modifies tests.redis
      ensures Did(id, AutosaveRead(answers))
      ensures existing == match Live(old(tests.SessionOf(id.sessionId)), tests.redis.now)
                          case None => None case Some(e) => Some(e.value)
    {
      existing := tests.GetSession(id.sessionId);
    }

    method WriteAnswers(id: Identity, answers: Answers, seen: SessionData) returns (saved: bool)
      requires Valid()
      modifies tests.redis
      ensures Did(id, AutosaveWrite(answers, seen))
      ensures saved <==> Live(old(tests.SessionOf(id.sessionId)), tests.redis.now).Some?
    {
      saved := tests.Overwrite(id.sessionId, seen, answers);
    }

    method MirrorSnapshot(id: Identity, answers: Answers)
      requires Valid()
      modifies this
      ensures Did(id, AutosaveMirror(answers))
    {
      if id.sessionId in rows {
        rows := rows[id.sessionId := rows[id.sessionId].(snapshot := Some(answers))];
      }
    }

    method Autosave(id: Identity, userId: string, answers: Answers) returns (r: Result<(), Failure>)
      requires Valid()
      modifies this, tests.redis
      ensures Ran(id, AutosaveCheck(userId, answers))
      ensures var s, now := old(Slice(id.sessionId)), tests.redis.now;
        && (r.Ok? <==> Owned(s.row, userId, ACTIVE) && Running(s.key, now))
        && (r.Ok? ==>
              Slice(id.sessionId)
              == s.(row := Some(s.row.value.(snapshot := Some(answers))),
                    key := Some(Entry(s.key.value.value.(answers := answers), s.key.value.deadline))))
        && (!Owned(s.row, userId, ACTIVE) ==> Slice(id.sessionId) == s && Rejected(s.row, userId, ACTIVE, r))
        && (Owned(s.row, userId, ACTIVE) && r.Err? ==>
              r == Err(Unprocessable)
              && Slice(id.sessionId) == s.(key := None, keyEvents := s.keyEvents + Announced(s.key, now)))
    {
      AutosaveOutcome(id, Slice(id.sessionId), tests.redis.now, userId, answers);
      SeenInjective(id);
      var session := GetOwnedSession(id.sessionId, userId, ACTIVE);
      if session.Err? {
        return Err(session.error);
      }
      SoloStep(View(id), tests.redis.now, AutosaveCheck(userId, answers));
      var saved := SaveAnswers(id, answers);
      r := if saved then Ok(()) else Err(Unprocessable);
    }

    /** The rest of an autosave, once its check has passed. */
    method SaveAnswers(id: Identity, answers: Answers) returns (saved: bool)
      requires Valid()
      modifies this, tests.redis
      ensures Ran(id, AutosaveRead(answers))
      ensures saved <==> old(Live(tests.SessionOf(id.sessionId), tests.redis.now).Some?)
    {
      SoloStep(View(id), tests.redis.now, AutosaveRead(answers));
      var existing := ReadKey(id, answers);
      if existing.None? {
        return false;
      }
      saved := WriteAndMirror(id, answers, existing.value);
    }

    method WriteAndMirror(id: Identity, answers: Answers, seen: SessionData) returns (saved: bool)
      requires Valid()
      modifies this, tests.redis
      ensures Ran(id, AutosaveWrite(answers, seen))
      ensures saved <==> old(Live(tests.SessionOf(id.sessionId), tests.redis.now).Some?)
    {
      SoloStep(View(id), tests.redis.now, AutosaveWrite(answers, seen));
      saved := WriteAnswers(id, answers, seen);
      if saved {
        SoloStep(View(id), tests.redis.now, AutosaveMirror(answers));
        MirrorSnapshot(id, answers);
      }
    }

    /** Exactly this attempt was added to those of the session. */
    twostate predicate Added(id: Identity, answers: Answers, auto: bool, lateFlag: bool, result: Scoring.ScoreResult)
      reads this, tests, tests.redis
    {
      && id.sessionId in old(rows)
      && attempts == old(attempts)[id.sessionId := old(RecordsOf(id.sessionId)) +
           [Recorded(old(rows[id.sessionId]).id, answers, auto, lateFlag, result, tests.redis.now)]]
    }

    method InsertAttempt(id: Identity, record: AttemptRow)
      requires Valid()
      modifies this`attempts
      ensures attempts == old(attempts)[id.sessionId := old(RecordsOf(id.sessionId)) + [record]]
      ensures Slice(id.sessionId)
           == old(Slice(id.sessionId)).(attempts := old(AttemptsOf(id.sessionId)) + [record.attempt])
      ensures Valid() && forall other :: other != id.sessionId ==> Slice(other) == old(Slice(other))
    {
      AttemptsAppend(RecordsOf(id.sessionId), record);
      attempts := attempts[id.sessionId := RecordsOf(id.sessionId) + [record]];
    }

    /** The transaction of `scoreAndPersist`. */
    method CommitAttempt(id: Identity, answers: Answers, auto: bool, lateFlag: bool, result: Scoring.ScoreResult)
      returns (affected: bool)
      requires Valid()
      modifies this
      ensures Did(id, Commit(answers, auto, lateFlag))
      ensures affected <==> old(Open(View(id)))
      ensures !affected ==> unchanged(this)
      ensures affected ==> Added(id, answers, auto, lateFlag, result)
    {
      affected := id.sessionId in rows && !Terminal(rows[id.sessionId].status);
      if affected {
        var row := rows[id.sessionId];
        CommitSeen(id, Slice(id.sessionId), tests.redis.now, answers, auto, lateFlag);
        var status := if auto then AUTO_SUBMITTED else SUBMITTED;
        rows := rows[id.sessionId := row.(status := status, snapshot := Some(answers))];
        InsertAttempt(id, Recorded(row.id, answers, auto, lateFlag, result, tests.redis.now));
      }
    }

    method DropKey(id: Identity)
      requires Valid()
      modifies tests.redis
      ensures Ran(id, DeleteKey)
    {
      SoloStep(View(id), tests.redis.now, DeleteKey);
      tests.DeleteSession(id.sessionId);
    }

    function SheetOf(examId: string): Option<Sheet>
      reads this
    {
      if examId in exams then Some(exams[examId].sheet) else None
    }

    method Persist(id: Identity, answers: Answers, auto: bool, lateFlag: bool, result: Scoring.ScoreResult)
      returns (affected: bool)
      requires Valid()
      modifies this, tests.redis
      ensures Ran(id, Commit(answers, auto, lateFlag))
      ensures affected <==> old(Open(View(id)))
      ensures affected ==> Added(id, answers, auto, lateFlag, result)
      ensures !affected ==> unchanged(this)
    {
      SoloStep(View(id), tests.redis.now, Commit(answers, auto, lateFlag));
      affected := CommitAttempt(id, answers, auto, lateFlag, result);
      if affected {
        DropKey(id);
      }
    }

    method ScoreAndPersist(id: Identity, session: Row, answers: Answers, auto: bool, lateFlag: bool)
      returns (r: Result<Scoring.ScoreResult, Failure>)
      requires Valid() && session.id.sessionId == id.sessionId
      modifies this, tests.redis
      ensures Ran(id, Commit(answers, auto, lateFlag))
      ensures r.Ok? <==> old(Open(View(id)))
      ensures r.Err? ==> r.error == Conflict
      ensures r.Ok? ==> Scoring.Scores(old(SheetOf(session.id.examId)), answers, r.value)
      ensures r.Ok? ==> Added(id, answers, auto, lateFlag, r.value)
      ensures r.Err? ==> unchanged(this)
    {
      var score := Scoring.ScoreAnswers(SheetOf(session.id.examId), answers);
      var affected := Persist(id, answers, auto, lateFlag, score);
      r := if affected then Ok(score) else Err(Conflict);
    }

    method SubmitExam(id: Identity, userId: string, answers: Answers) returns (r: Result<Scoring.ScoreResult, Failure>)
      requires Valid()
      modifies this, tests.redis
      ensures Ran(id, SubmitCheck(userId, answers))
      ensures r.Ok? <==> Owned(old(RowOf(id.sessionId)), userId, ACTIVE)
      ensures r.Ok? ==> Submitted(id, old(Slice(id.sessionId)), answers, false, false)
      ensures r.Err? ==>
                Slice(id.sessionId) == old(Slice(id.sessionId)) && Rejected(old(RowOf(id.sessionId)), userId, ACTIVE, r)
      ensures r.Ok? ==> Scoring.Scores(old(SheetOf(rows[id.sessionId].id.examId)), answers, r.value)
      ensures r.Ok? ==> Added(id, answers, false, false, r.value)
    {
      SubmitOutcome(id, Slice(id.sessionId), tests.redis.now, userId, answers);
      CommitOutcome(id, Slice(id.sessionId), tests.redis.now, answers, false, false);
      SeenInjective(id);
      var session := GetOwnedSession(id.sessionId, userId, ACTIVE);
      if session.Err? {
        return Err(session.error);
      }
      r := ScoreAndPersist(id, session.value, answers, false, false);
    }

    /** The answers sent, or the snapshot under the grace key if there are none. */
    ghost function FinalAnswers(sessionId: string, answers: Answers): Answers
      reads this, tests, tests.redis
    {
      if answers != map[] || tests.GraceOf(sessionId).None? then answers else tests.GraceOf(sessionId).value.value
    }

    /** The answers to score, if the grace window was open; it is closed now. */
    method TakeGrace(id: Identity, userId: string, answers: Answers) returns (finalAnswers: Option<Answers>)
      requires Valid()
      modifies tests.redis
      ensures Did(id, LateConsume(userId, answers))
      ensures finalAnswers.Some? <==> Running(old(tests.GraceOf(id.sessionId)), tests.redis.now)
      ensures finalAnswers.Some? ==>
                finalAnswers.value == if answers == map[] then old(tests.GraceOf(id.sessionId)).value.value else answers
    {
      var graceSnapshot := tests.ConsumeGrace(id.sessionId);
      finalAnswers :=
        if graceSnapshot.None? then None else if answers != map[] then Some(answers) else graceSnapshot;
    }

    /** What it sent is scored, or what was under the grace key if it sent nothing; the window is closed either way. */
    method LateSubmitExam(id: Identity, userId: string, answers: Answers)
      returns (r: Result<Scoring.ScoreResult, Failure>)
      requires Valid()
      modifies this, tests.redis
      ensures Ran(id, LateCheck(userId, answers))
      ensures var s, now := old(Slice(id.sessionId)), tests.redis.now;
        && (r.Ok? <==> Owned(s.row, userId, EXPIRED) && Running(s.grace, now))
        && (r.Ok? ==>
              var used := if answers == map[] then s.grace.value.value else answers;
              && Submitted(id, s.(grace := None), used, false, true)
              && Scoring.Scores(old(SheetOf(rows[id.sessionId].id.examId)), used, r.value)
              && Added(id, used, false, true, r.value))
        && (!Owned(s.row, userId, EXPIRED) ==> Slice(id.sessionId) == s && Rejected(s.row, userId, EXPIRED, r))
        && (Owned(s.row, userId, EXPIRED) && r.Err? ==>
              r == Err(Forbidden)
              && Slice(id.sessionId) == s.(grace := None, graceEvents := s.graceEvents + Announced(s.grace, now)))
    {
      ghost var s, now := Slice(id.sessionId), tests.redis.now;
      r := CheckAndSubmitLate(id, userId, answers);
      LateOutcome(id, s, now, userId, answers);
      if Running(s.grace, now) {
        var due := if answers == map[] then s.grace.value.value else answers;
        CommitOutcome(id, s.(grace := None), now, due, false, true);
      }
      SeenInjective(id);
    }

    method CheckAndSubmitLate(id: Identity, userId: string, answers: Answers)
      returns (r: Result<Scoring.ScoreResult, Failure>)
      requires Valid()
      modifies this, tests.redis
      ensures Ran(id, LateCheck(userId, answers))
      ensures r.Ok? <==> Owned(old(RowOf(id.sessionId)), userId, EXPIRED)
                         && Running(old(tests.GraceOf(id.sessionId)), tests.redis.now)
      ensures !Owned(old(RowOf(id.sessionId)), userId, EXPIRED) ==>
                Rejected(old(RowOf(id.sessionId)), userId, EXPIRED, r)
      ensures Owned(old(RowOf(id.sessionId)), userId, EXPIRED) && r.Err? ==> r == Err(Forbidden)
      ensures r.Ok? ==>
                var used := if answers == map[] then old(tests.GraceOf(id.sessionId)).value.value else answers;
                && Scoring.Scores(old(SheetOf(rows[id.sessionId].id.examId)), used, r.value)
                && Added(id, used, false, true, r.value)
    {
      var session := GetOwnedSession(id.sessionId, userId, EXPIRED);
      if session.Err? {
        return Err(session.error);
      }
      SoloStep(View(id), tests.redis.now, LateCheck(userId, answers));
      r := SubmitLate(id, userId, answers, session.value);
    }

    /** The rest of a late submission, once its check has passed. */
    method SubmitLate(id: Identity, userId: string, answers: Answers, session: Row)
      returns (r: Result<Scoring.ScoreResult, Failure>)
      requires Valid() && RowOf(id.sessionId) == Some(session) && !Terminal(session.status)
      modifies this, tests.redis
      ensures Ran(id, LateConsume(userId, answers))
      ensures r.Ok? <==> Running(old(tests.GraceOf(id.sessionId)), tests.redis.now)
      ensures r.Err? ==> r == Err(Forbidden)
      ensures r.Ok? ==>
                var used := if answers == map[] then old(tests.GraceOf(id.sessionId)).value.value else answers;
                && Scoring.Scores(old(SheetOf(session.id.examId)), used, r.value)
                && Added(id, used, false, true, r.value)
    {
      SoloStep(View(id), tests.redis.now, LateConsume(userId, answers));
      var finalAnswers := TakeGrace(id, userId, answers);
      if finalAnswers.None? {
        return Err(Forbidden);
      }
      assert Open(View(id)) && unchanged(this);
      r := ScoreAndPersist(id, session, finalAnswers.value, false, true);
    }

    method OpenGrace(id: Identity, snapshot: Option<Answers>)
      requires Valid()
      modifies tests.redis
      ensures Did(id, ExpiryOpenGrace(snapshot))
    {
      tests.StartGrace(id.sessionId, if snapshot.Some? then snapshot.value else map[]);
    }

    /** An active row expires and its snapshot is kept under the grace key for 120 seconds; else nothing happens. */
    method HandleSessionExpiry(id: Identity)
      requires Valid()
      modifies this, tests.redis
      ensures Ran(id, ExpiryCheck)
      ensures var s, now := old(Slice(id.sessionId)), tests.redis.now;
              Slice(id.sessionId)
              == if s.row.None? || s.row.value.status != ACTIVE then s
                 else s.(row := Some(s.row.value.(status := EXPIRED)),
                         grace := Some(Entry(s.row.value.snapshot.UnwrapOr(map[]), now + 120_000)),
                         graceEvents := s.graceEvents + Announced(s.grace, now))
    {
      ExpiryOutcome(id, Slice(id.sessionId), tests.redis.now);
      SeenInjective(id);
      if id.sessionId !in rows || rows[id.sessionId].status != ACTIVE {
        return;
      }
      var session := rows[id.sessionId];
      SoloStep(View(id), tests.redis.now, ExpiryCheck);
      ExpireAndOpen(id, session.snapshot);
    }

    /** The unconditional UPDATE of the expiry handler. */
    method MarkExpired(id: Identity, snapshot: Option<Answers>)
      requires Valid()
      modifies this
      ensures Did(id, ExpiryMark(snapshot))
    {
      if id.sessionId in rows {
        rows := rows[id.sessionId := rows[id.sessionId].(status := EXPIRED)];
      }
    }

    method ExpireAndOpen(id: Identity, snapshot: Option<Answers>)
      requires Valid()
      modifies this, tests.redis
      ensures Ran(id, ExpiryMark(snapshot))
    {
      SoloStep(View(id), tests.redis.now, ExpiryMark(snapshot));
      MarkExpired(id, snapshot);
      SoloStep(View(id), tests.redis.now, ExpiryOpenGrace(snapshot));
      OpenGrace(id, snapshot);
    }

    /** `handleGraceExpiry`, which is `autoSubmitFromSnapshot`: a lost race is not an error. */
    method HandleGraceExpiry(id: Identity)
      requires Valid()
      modifies this, tests.redis
      ensures Ran(id, GraceCheck)
      ensures var s := old(Slice(id.sessionId));
              if s.row.None? || (s.row.value.status != ACTIVE && s.row.value.status != EXPIRED)
              then Slice(id.sessionId) == s
              else
                var used := s.row.value.snapshot.UnwrapOr(map[]);
                && Submitted(id, s, used, true, false)
                && exists result: Scoring.ScoreResult ::
                     && Scoring.Scores(old(SheetOf(rows[id.sessionId].id.examId)), used, result)
                     && Added(id, used, true, false, result)
    {
      ghost var s := Slice(id.sessionId);
      GraceOutcome(id, s, tests.redis.now);
      if s.row.Some? {
        CommitOutcome(id, s, tests.redis.now, s.row.value.snapshot.UnwrapOr(map[]), true, false);
      }
      SeenInjective(id);
      if id.sessionId !in rows || Terminal(rows[id.sessionId].status) {
        return;
      }
      var session := rows[id.sessionId];
      var answers := if session.snapshot.Some? then session.snapshot.value else map[];
      var r := ScoreAndPersist(id, session, answers, true, false);
    }

    /** An unexpired, unused code of this user and exam with this secret. */
    ghost predicate Verifies(codeId: string, userId: string, secret: string, examId: string)
      reads this, tests, tests.redis
    {
      && codeId in codes
      && codes[codeId].userId == userId && codes[codeId].examId == examId && codes[codeId].secret == secret
      && !codes[codeId].used && tests.redis.now <= codes[codeId].expiresAt
    }

    ghost predicate Verifiable(userId: string, secret: string, examId: string)
      reads this, tests, tests.redis
    {
      exists codeId :: Verifies(codeId, userId, secret, examId)
    }

    /** `candidates` is what the query for unused codes returned; comparing hashes is comparing secrets. */
    method FindAndVerifyCode(userId: string, secret: string, examId: string, candidates: seq<string>)
      returns (found: Result<string, Failure>)
      requires Backend.IsCandidateList(codes, userId, examId, candidates)
      ensures found == Err(NotFound) <==> examId !in exams
      ensures found == Err(Forbidden) <==>
                examId in exams && (exams[examId].published ==> !Verifiable(userId, secret, examId))
      ensures found.Err? ==> found.error == NotFound || found.error == Forbidden
      ensures found.Ok? ==> exams[examId].published && Verifies(found.value, userId, secret, examId)
      ensures found.Ok? ==> forall c :: Verifies(c, userId, secret, examId) ==>
                              codes[c].createdAt <= codes[found.value].createdAt
    {
      if examId !in exams {
        return Err(NotFound);
      }
      if !exams[examId].published {
        return Err(Forbidden);
      }
      for k := 0 to |candidates|
        invariant forall j :: 0 <= j < k ==> !Verifies(candidates[j], userId, secret, examId)
      {
        var candidate := codes[candidates[k]];
        if tests.redis.now > candidate.expiresAt {
          continue;
        }
        if candidate.secret == secret {
          assert Verifies(candidates[k], userId, secret, examId);
          return Ok(candidates[k]);
        }
      }
      found := Err(Forbidden);
    }

    /** An active session of this user for this exam. */
    predicate Sitting(userId: string, examId: string)
      reads this
    {
      exists sid :: sid in rows && rows[sid].id.userId == userId && rows[sid].id.examId == examId
                    && rows[sid].status == ACTIVE
    }

    method OpenKey(id: Identity, answer: Reply) returns (stored: bool)
      requires Valid() && View(id) == Quiet(Opened(id)).(start := Settled)
      modifies tests.redis
      ensures Valid() && tests.redis.now == old(tests.redis.now)
      ensures stored <==> answer.Stored? && id.durationSeconds > 0
      ensures View(id) == Quiet(Next(Opened(id), tests.redis.now, WriteKey(answer))).(start := Settled)
      ensures forall other :: other != id.sessionId ==> Slice(other) == old(Slice(other))
    {
      var reply := tests.Start(id, answer);
      stored := reply.Ok?;
    }

    /** What a started exam leaves behind: its row, its used code, and its key. */
    twostate predicate Started(id: Identity)
      reads this, tests, tests.redis
    {
      && id.sessionToken in old(codes)
      && rows == old(rows)[id.sessionId := Row(id, ACTIVE, None)]
      && codes == old(codes)[id.sessionToken := old(codes)[id.sessionToken].(used := true)]
      && View(id) == Quiet(Next(Opened(id), tests.redis.now, WriteKey(Stored)))
    }

    /** What the compensation leaves behind: rows and codes as before, and the key if Redis stored it after all. */
    twostate predicate Undone(id: Identity, answer: Reply)
      reads this, tests, tests.redis
    {
      && rows == old(rows) && codes == old(codes)
      && View(id) == Quiet(CompensateStep(WriteKeyStep(Opened(id), tests.redis.now, answer)))
    }

    /** The transaction of a start: the conditional UPDATE of the code, then the session row. */
    method Consume(id: Identity) returns (consumed: bool)
      requires Valid() && id.sessionToken in codes && Slice(id.sessionId) == Stores(None, [], None, 0, None, 0)
      modifies this
      ensures Valid()
      ensures consumed <==> !old(codes[id.sessionToken].used)
      ensures !consumed ==> unchanged(this)
      ensures consumed ==>
                && rows == old(rows)[id.sessionId := Row(id, ACTIVE, None)]
                && codes == old(codes)[id.sessionToken := old(codes)[id.sessionToken].(used := true)]
                && View(id) == Quiet(Opened(id)).(start := Settled)
      ensures forall other :: other != id.sessionId ==> Slice(other) == old(Slice(other))
      ensures attempts == old(attempts) && exams == old(exams)
    {
      consumed := !codes[id.sessionToken].used;
      if consumed {
        codes := codes[id.sessionToken := codes[id.sessionToken].(used := true)];
        rows := rows[id.sessionId := Row(id, ACTIVE, None)];
      }
    }

    /** The second transaction of a failed start. */
    method Compensate(id: Identity)
      requires Valid() && id.sessionToken in codes
      modifies this
      ensures Valid()
      ensures rows == old(rows) - {id.sessionId}
      ensures codes == old(codes)[id.sessionToken := old(codes)[id.sessionToken].(used := false)]
      ensures Slice(id.sessionId) == old(Slice(id.sessionId)).(row := None)
      ensures forall other :: other != id.sessionId ==> Slice(other) == old(Slice(other))
      ensures attempts == old(attempts) && exams == old(exams)
    {
      rows := rows - {id.sessionId};
      codes := codes[id.sessionToken := codes[id.sessionToken].(used := false)];
    }

    /** The transaction, the Redis key, and the compensation when that fails. */
    method ConsumeAndOpen(id: Identity, answer: Reply) returns (failure: Option<Failure>)
      requires Valid() && id.sessionToken in codes && Slice(id.sessionId) == Stores(None, [], None, 0, None, 0)
      modifies this, tests.redis
      ensures Valid()
      ensures failure == Some(Conflict) <==> old(codes[id.sessionToken].used)
      ensures failure == Some(Conflict) ==> unchanged(this) && unchanged(tests.redis)
      ensures failure.None? <==> !old(codes[id.sessionToken].used) && answer.Stored? && id.durationSeconds > 0
      ensures failure.None? ==> Started(id)
      ensures failure.Some? && failure != Some(Conflict) ==> failure == Some(RedisDown) && Undone(id, answer)
      ensures forall other :: other != id.sessionId ==> Slice(other) == old(Slice(other))
      ensures attempts == old(attempts) && exams == old(exams) && tests.redis.now == old(tests.redis.now)
    {
      var consumed := Consume(id);
      if !consumed {
        return Some(Conflict);
      }
      var written := OpenKey(id, answer);
      if written {
        return None;
      }
      Compensate(id);
      failure := Some(RedisDown);
    }

    /**
     `candidates` is the result of the code query, `freshId` the id the database generates, and `answer` what
     becomes of the Redis command. The error says how far the call got; whatever it is, no row is left and no code
     is used up.
     */
    method StartExam(userId: string, secret: string, examId: string, candidates: seq<string>, freshId: string,
                     answer: Reply) returns (r: Result<Identity, Failure>)
      requires Valid() && Backend.IsCandidateList(codes, userId, examId, candidates)
      requires Slice(freshId) == Stores(None, [], None, 0, None, 0)
      modifies this, tests.redis
      ensures Valid()
      ensures r == Err(NotFound) <==> examId !in exams
      ensures r == Err(Forbidden) <==>
                examId in exams && (exams[examId].published ==> !old(Verifiable(userId, secret, examId)))
      ensures r == Err(Conflict) <==>
                && examId in exams && exams[examId].published
                && old(Verifiable(userId, secret, examId)) && old(Sitting(userId, examId))
      ensures r.Ok? <==>
                && examId in exams && exams[examId].published && exams[examId].durationMinutes > 0 && answer.Stored?
                && old(Verifiable(userId, secret, examId)) && !old(Sitting(userId, examId))
      ensures r.Ok? ==> var id := r.value;
        && Started(id) && old(Verifies(id.sessionToken, userId, secret, examId))
        && id.sessionId == freshId && id.userId == userId && id.examId == examId
        && id.durationSeconds == exams[examId].durationMinutes * 60
        && id.startedAt == tests.redis.now && id.certId == old(codes)[id.sessionToken].certId
        && RowOf(freshId) == Some(Row(id, ACTIVE, None))
        && tests.SessionOf(freshId)
           == Some(Entry(SessionData(freshId, userId, examId, id.certId, tests.redis.now, map[]),
                         tests.redis.now + 60_000 * exams[examId].durationMinutes))
      ensures old(Sitting(userId, examId)) <==>
                exists sid :: sid in old(rows) && old(rows)[sid].status == ACTIVE
                              && old(rows)[sid].id.userId == userId && old(rows)[sid].id.examId == examId
      ensures r.Ok? ==>
                var code := old(codes)[r.value.sessionToken];
                && code.userId == userId && code.examId == examId && code.secret == secret
                && !code.used && tests.redis.now <= code.expiresAt
      ensures r.Err? ==> rows == old(rows) && codes == old(codes)
      ensures r.Err? && r != Err(RedisDown) ==> unchanged(tests.redis)
      ensures r == Err(RedisDown) && (answer.Refused? || exams[examId].durationMinutes <= 0) ==>
                Slice(freshId) == old(Slice(freshId))
      ensures forall other :: other != freshId ==> Slice(other) == old(Slice(other))
      ensures attempts == old(attempts) && exams == old(exams) && tests.redis.now == old(tests.redis.now)
    {
      var found := FindAndVerifyCode(userId, secret, examId, candidates);
      if found.Err? {
        return Err(found.error);
      }
      assert Verifiable(userId, secret, examId);
      if Sitting(userId, examId) {
        return Err(Conflict);
      }
      var id := Identity(freshId, userId, examId, codes[found.value].certId, found.value, tests.redis.now,
                         exams[examId].durationMinutes * 60);
      var failure := ConsumeAndOpen(id, answer);
      r := if failure.Some? then Err(failure.value) else Ok(id);
    }
  }
}
